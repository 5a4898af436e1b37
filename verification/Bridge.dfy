/**
 * `Bridge` on every node of a cluster, over one Redis channel that may lose, duplicate and
 * reorder messages.
 */
module Bridge {
  import opened Dedup
  import opened Hub
  import opened Results
  import opened Slices

  /**
   * One node. `inflight` holds stamped events whose fan-out has not reached the bridge's own
   * subscription yet, `queue` is that subscription's buffer. The histories `produced`, `forwarded`,
   * `handled` and `accepted` record local events, messages put on the channel, peer messages the
   * subscriber looked at, and those it published into the local hub; `taken` and `dropped` record what
   * the publisher took from the buffer, and what found the buffer full; `stamped` records everything that
   * this hub gave a number.
   */
  datatype Node = Node(
    seqNo: nat, inflight: set<Event>, queue: seq<Event>, order: seq<string>,
    produced: seq<Event>, forwarded: seq<Event>, handled: seq<Event>, accepted: seq<Event>,
    taken: seq<Event>, dropped: seq<Event>, stamped: seq<Event>)

  datatype Cluster = Cluster(cap: nat, names: seq<string>, nodes: seq<Node>)

  datatype Action =
    | Produce(i: nat, body: string)
    | FanOut(i: nat, e: Event, full: bool)
    | Forward(i: nat)
    | Deliver(i: nat, from: nat, n: nat)

  function EmptyNode(): Node {
    Node(0, {}, [], [], [], [], [], [], [], [], [])
  }

  function Init(cap: nat, names: seq<string>): Cluster {
    Cluster(cap, names, seq(|names|, _ => EmptyNode()))
  }

  /** `Hub.Publish` up to its stamp: the event now carries this hub's number. */
  function Stamped(x: Node, e: Event): Node {
    var f := e.(seqNo := x.seqNo + 1);
    x.(seqNo := x.seqNo + 1, inflight := x.inflight + {f}, stamped := x.stamped + [f])
  }

  /** A hook publishes an event of its own node. */
  function Produced(name: string, x: Node, body: string): Node {
    Stamped(x, Event(name, body, 0)).(produced := x.produced + [Event(name, body, x.seqNo + 1)])
  }

  /** The fan-out reaches the bridge's subscription; a full buffer drops the event. */
  function FannedOut(x: Node, e: Event, full: bool): Node {
    if e !in x.inflight then x
    else if full then x.(inflight := x.inflight - {e}, dropped := x.dropped + [e])
    else x.(inflight := x.inflight - {e}, queue := x.queue + [e])
  }

  /** `runPublisher`: only events of this node go to the channel. */
  function Forwarded(name: string, x: Node): Node {
    if x.queue == [] then x
    else
      var e := x.queue[0];
      var y := x.(queue := x.queue[1..], taken := x.taken + [e]);
      if e.node != name then y else y.(forwarded := x.forwarded + [e])
  }

  /** `runSubscriber`: echoes and remembered events are dropped, the others are published locally. */
  function Received(name: string, cap: nat, x: Node, e: Event): Node
    requires cap >= 1
  {
    if e.node == name then x
    else
      var key := EventKey(e.node, e.seqNo);
      var y := x.(handled := x.handled + [e]);
      if key in x.order then y
      else Stamped(y, e).(order := Remembered(x.order, cap, key), accepted := x.accepted + [e])
  }

  /** The message a delivery takes off the channel: any that was ever forwarded. */
  function Message(c: Cluster, a: Action): Option<Event> {
    if a.Deliver? && a.from < |c.nodes| && a.n < |c.nodes[a.from].forwarded| then
      Some(c.nodes[a.from].forwarded[a.n])
    else None
  }

  function Acted(name: string, cap: nat, x: Node, a: Action, m: Option<Event>): Node
    requires cap >= 1
  {
    match a
    case Produce(_, body) => Produced(name, x, body)
    case FanOut(_, e, full) => FannedOut(x, e, full)
    case Forward(_) => Forwarded(name, x)
    case Deliver(_, _, _) => if m.Some? then Received(name, cap, x, m.value) else x
  }

  function Next(c: Cluster, a: Action): Cluster
    requires c.cap >= 1 && |c.names| == |c.nodes|
  {
    if a.i >= |c.nodes| then c
    else c.(nodes := c.nodes[a.i := Acted(c.names[a.i], c.cap, c.nodes[a.i], a, Message(c, a))])
  }

  /** Every list of actions is a run: delivering any forwarded message any number of times covers loss,
      duplication and reordering. */
  function Run(cap: nat, names: seq<string>, actions: seq<Action>): (c: Cluster)
    requires cap >= 1
    ensures c.cap == cap && c.names == names && |c.nodes| == |names|
  {
    if actions == [] then Init(cap, names)
    else Next(Run(cap, names, actions[..|actions| - 1]), actions[|actions| - 1])
  }

  lemma RunStep(cap: nat, names: seq<string>, actions: seq<Action>, a: Action)
    requires cap >= 1
    ensures Run(cap, names, actions + [a]) == Next(Run(cap, names, actions), a)
  {
    assert (actions + [a])[..|actions|] == actions;
  }

  // ----- What one node keeps -----

  ghost predicate DistinctStamps(s: seq<Event>) {
    forall i, j :: 0 <= i < j < |s| ==> s[i].seqNo != s[j].seqNo
  }

  /** A stamp is in one place only: in flight, queued or forwarded. */
  ghost predicate Disjoint(x: Node) {
    && (forall e, f :: e in x.inflight && f in x.inflight && e.seqNo == f.seqNo ==> e == f)
    && DistinctStamps(x.queue + x.forwarded)
    && (forall e, f :: e in x.inflight && f in x.queue + x.forwarded ==> e.seqNo != f.seqNo)
  }

  ghost predicate Numbered(x: Node) {
    forall e :: e in x.inflight || e in x.queue + x.forwarded ==> e.seqNo <= x.seqNo
  }

  /** Own events anywhere in the node were produced by it, and only own events were forwarded. */
  ghost predicate OwnOnly(name: string, x: Node) {
    && (forall e :: e in x.produced ==> e.node == name)
    && (forall e :: (e in x.inflight || e in x.queue + x.forwarded) && e.node == name ==> e in x.produced)
    && (forall e :: e in x.forwarded ==> e.node == name)
  }

  ghost predicate NodeInv(name: string, x: Node) {
    Disjoint(x) && Numbered(x) && OwnOnly(name, x)
  }

  lemma StampedKeeps(name: string, x: Node, e: Event)
    requires NodeInv(name, x) && e.node != name
    ensures NodeInv(name, Stamped(x, e))
  {
  }

  lemma ProducedKeeps(name: string, x: Node, body: string)
    requires NodeInv(name, x)
    ensures NodeInv(name, Produced(name, x, body))
  {
    var e := Event(name, body, x.seqNo + 1);
    assert e in x.produced + [e];
  }

  lemma FannedOutKeeps(name: string, x: Node, e: Event)
    requires NodeInv(name, x) && e in x.inflight
    ensures NodeInv(name, x.(inflight := x.inflight - {e}, queue := x.queue + [e]))
  {
    var s, t := x.queue + x.forwarded, (x.queue + [e]) + x.forwarded;
    InsertedStamp(x.queue, x.forwarded, e);
    assert forall f :: f in t ==> f in s || f == e;
  }

  lemma InsertedStamp(a: seq<Event>, b: seq<Event>, e: Event)
    requires DistinctStamps(a + b) && forall f :: f in a + b ==> f.seqNo != e.seqNo
    ensures DistinctStamps((a + [e]) + b)
    ensures forall f :: f in (a + [e]) + b <==> f in a + b || f == e
  {
    var s, t, at := a + b, (a + [e]) + b, |a|;
    assert forall k :: 0 <= k < |t| && k != at ==> t[k] == s[if k < at then k else k - 1];
    assert t[at] == e && forall k :: 0 <= k < |s| ==> s[k] in s;
  }

  lemma ForwardedKeeps(name: string, x: Node)
    requires NodeInv(name, x)
    ensures NodeInv(name, Forwarded(name, x))
  {
    if x.queue != [] {
      var y, s := Forwarded(name, x), x.queue + x.forwarded;
      var t := y.queue + y.forwarded;
      assert s == [x.queue[0]] + (x.queue[1..] + x.forwarded);
      if x.queue[0].node == name {
        assert t == (x.queue[1..] + x.forwarded) + [x.queue[0]];
      } else {
        assert t == x.queue[1..] + x.forwarded;
      }
      assert forall f :: f in t ==> f in s;
      assert forall k :: 0 <= k < |s| - 1 ==> t[k] == s[k + 1];
      assert |t| == |s| ==> t[|s| - 1] == s[0];
    }
  }

  // ----- What the cluster keeps -----

  function Keys(es: seq<Event>): seq<string> {
    seq(|es|, i requires 0 <= i < |es| => EventKey(es[i].node, es[i].seqNo))
  }

  /** A handled message came off the channel from the peer it names. */
  ghost predicate CameFrom(c: Cluster, i: nat, e: Event)
    requires |c.names| == |c.nodes| && i < |c.names|
  {
    e.node != c.names[i] && exists j :: 0 <= j < |c.nodes| && c.names[j] == e.node && e in c.nodes[j].forwarded
  }

  ghost predicate ReceiverInv(c: Cluster, i: nat)
    requires |c.names| == |c.nodes| && i < |c.names| && c.cap >= 1
  {
    var x := c.nodes[i];
    && (forall e :: e in x.handled ==> CameFrom(c, i, e))
    && (forall e :: e in x.accepted ==> e in x.handled)
    && x.order == LastN(Keys(x.accepted), c.cap)
    && Spaced(Keys(x.accepted), c.cap)
  }

  ghost predicate Inv(c: Cluster) {
    && c.cap >= 1 && |c.names| == |c.nodes|
    && (forall i :: 0 <= i < |c.nodes| ==> NodeInv(c.names[i], c.nodes[i]))
    && (forall i :: 0 <= i < |c.nodes| ==> ReceiverInv(c, i))
  }

  lemma ReceivedKeepsNode(name: string, cap: nat, x: Node, e: Event)
    requires cap >= 1 && NodeInv(name, x)
    ensures NodeInv(name, Received(name, cap, x, e))
  {
    if e.node != name {
      StampedKeeps(name, x, e);
    }
  }

  /** An accepted message enters the memory and keeps acceptances of one key `cap` apart. */
  lemma AcceptedIsRemembered(x: Node, cap: nat, e: Event)
    requires cap >= 1
    requires x.order == LastN(Keys(x.accepted), cap) && Spaced(Keys(x.accepted), cap)
    requires EventKey(e.node, e.seqNo) !in x.order
    ensures var keys := Keys(x.accepted + [e]);
            Remembered(x.order, cap, EventKey(e.node, e.seqNo)) == LastN(keys, cap) && Spaced(keys, cap)
  {
    var key := EventKey(e.node, e.seqNo);
    assert Keys(x.accepted + [e]) == Keys(x.accepted) + [key];
    RememberedIsLast(Keys(x.accepted), cap, key);
    StaysSpaced(Keys(x.accepted), cap, key);
  }

  /** Histories only grow, so what a receiver knows about its peers stays true. */
  lemma StillCameFrom(c: Cluster, d: Cluster, i: nat, e: Event)
    requires |c.names| == |c.nodes| && i < |c.names| && CameFrom(c, i, e)
    requires d.names == c.names && |d.nodes| == |c.nodes|
    requires forall j, f :: 0 <= j < |c.nodes| && f in c.nodes[j].forwarded ==> f in d.nodes[j].forwarded
    ensures CameFrom(d, i, e)
  {
    var j :| 0 <= j < |c.nodes| && c.names[j] == e.node && e in c.nodes[j].forwarded;
    assert e in d.nodes[j].forwarded;
  }

  lemma ActedKeeps(name: string, cap: nat, x: Node, a: Action, m: Option<Event>)
    requires cap >= 1 && NodeInv(name, x)
    ensures NodeInv(name, Acted(name, cap, x, a, m))
  {
    match a
    case Produce(_, body) =>
      ProducedKeeps(name, x, body);
    case FanOut(_, e, full) =>
      FannedOutOrDropped(name, x, e, full);
    case Forward(_) =>
      ForwardedKeeps(name, x);
    case Deliver(_, _, _) =>
      if m.Some? {
        ReceivedKeepsNode(name, cap, x, m.value);
      }
  }

  lemma FannedOutOrDropped(name: string, x: Node, e: Event, full: bool)
    requires NodeInv(name, x)
    ensures NodeInv(name, FannedOut(x, e, full))
  {
    if e in x.inflight && !full {
      FannedOutKeeps(name, x, e);
    }
  }

  lemma NextKeepsNodes(c: Cluster, a: Action)
    requires Inv(c)
    ensures forall i :: 0 <= i < |c.nodes| ==> NodeInv(c.names[i], Next(c, a).nodes[i])
  {
    if a.i < |c.nodes| {
      ActedKeeps(c.names[a.i], c.cap, c.nodes[a.i], a, Message(c, a));
    }
  }

  lemma ForwardedGrows(c: Cluster, a: Action)
    requires Inv(c)
    ensures forall j, f :: 0 <= j < |c.nodes| && f in c.nodes[j].forwarded ==> f in Next(c, a).nodes[j].forwarded
  {
  }

  /** A step of another kind, or at another node, leaves what a receiver remembers alone. */
  lemma QuietKeepsReceiver(c: Cluster, d: Cluster, i: nat)
    requires Inv(c) && i < |c.nodes|
    requires d.cap == c.cap && d.names == c.names && |d.nodes| == |c.nodes|
    requires forall j, f :: 0 <= j < |c.nodes| && f in c.nodes[j].forwarded ==> f in d.nodes[j].forwarded
    requires var x, y := c.nodes[i], d.nodes[i];
             x.handled == y.handled && x.accepted == y.accepted && x.order == y.order
    ensures ReceiverInv(d, i)
  {
    assert ReceiverInv(c, i);
    forall e | e in d.nodes[i].handled ensures CameFrom(d, i, e) {
      StillCameFrom(c, d, i, e);
    }
  }

  lemma DeliverKeepsReceiver(c: Cluster, i: nat, from: nat, n: nat)
    requires Inv(c) && i < |c.nodes| && from < |c.nodes| && n < |c.nodes[from].forwarded|
    ensures ReceiverInv(Next(c, Deliver(i, from, n)), i)
  {
    var d, m := Next(c, Deliver(i, from, n)), c.nodes[from].forwarded[n];
    assert ReceiverInv(c, i);
    ForwardedGrows(c, Deliver(i, from, n));
    DeliveredCameFrom(c, i, from, n);
    forall e | e in d.nodes[i].handled ensures CameFrom(d, i, e) {
      StillCameFrom(c, d, i, e);
    }
    if m.node != c.names[i] && EventKey(m.node, m.seqNo) !in c.nodes[i].order {
      AcceptedIsRemembered(c.nodes[i], c.cap, m);
    }
  }

  lemma DeliveredCameFrom(c: Cluster, i: nat, from: nat, n: nat)
    requires Inv(c) && i < |c.nodes| && from < |c.nodes| && n < |c.nodes[from].forwarded|
    ensures forall e :: e in Next(c, Deliver(i, from, n)).nodes[i].handled ==> CameFrom(c, i, e)
  {
    var m := c.nodes[from].forwarded[n];
    assert ReceiverInv(c, i) && NodeInv(c.names[from], c.nodes[from]);
    assert m in c.nodes[from].forwarded;
    assert m.node != c.names[i] ==> CameFrom(c, i, m);
  }

  lemma NextKeepsReceivers(c: Cluster, a: Action)
    requires Inv(c)
    ensures var d := Next(c, a);
            |d.names| == |d.nodes| && d.cap >= 1 && forall i :: 0 <= i < |d.nodes| ==> ReceiverInv(d, i)
  {
    var d := Next(c, a);
    ForwardedGrows(c, a);
    forall i | 0 <= i < |d.nodes| ensures ReceiverInv(d, i) {
      if a.Deliver? && a.i == i && a.from < |c.nodes| && a.n < |c.nodes[a.from].forwarded| {
        DeliverKeepsReceiver(c, i, a.from, a.n);
      } else {
        QuietKeepsReceiver(c, d, i);
      }
    }
  }

  lemma {:induction false} RunKeepsInv(cap: nat, names: seq<string>, actions: seq<Action>)
    requires cap >= 1
    ensures Inv(Run(cap, names, actions))
  {
    if actions == [] {
    } else {
      var before := actions[..|actions| - 1];
      RunKeepsInv(cap, names, before);
      NextKeepsNodes(Run(cap, names, before), actions[|actions| - 1]);
      NextKeepsReceivers(Run(cap, names, before), actions[|actions| - 1]);
    }
  }

  // ----- Main results -----

  ghost predicate DistinctNames(names: seq<string>) {
    forall i, j :: 0 <= i < j < |names| ==> names[i] != names[j]
  }

  /**
   * In every run, what a node puts on the channel carries its own name, was produced there, and is
   * put there once: no event circulates, and with distinct names no node forwards a peer's event.
   */
  lemma NoEventCirculates(cap: nat, names: seq<string>, actions: seq<Action>, i: nat)
    requires cap >= 1 && i < |names|
    ensures var x := Run(cap, names, actions).nodes[i];
            && DistinctStamps(x.forwarded)
            && (forall e :: e in x.forwarded ==> e.node == names[i] && e in x.produced)
    ensures DistinctNames(names) ==>
      forall j, e :: 0 <= j < |names| && j != i && e in Run(cap, names, actions).nodes[j].produced ==>
        e !in Run(cap, names, actions).nodes[i].forwarded
  {
    RunKeepsInv(cap, names, actions);
    var c := Run(cap, names, actions);
    var x := c.nodes[i];
    assert NodeInv(names[i], x);
    assert forall k :: 0 <= k < |x.forwarded| ==> (x.queue + x.forwarded)[|x.queue| + k] == x.forwarded[k];
    assert forall e :: e in x.forwarded ==> e in x.queue + x.forwarded;
    assert forall j :: 0 <= j < |names| ==> NodeInv(names[j], c.nodes[j]);
  }

  /**
   * In every run, the first copy of a peer's event that reaches a receiver is published there: it is on
   * its way to the local subscribers, with the next number of the local hub, and nothing else changes.
   */
  lemma FirstCopyIsAccepted(cap: nat, names: seq<string>, actions: seq<Action>, i: nat, from: nat, n: nat)
    requires cap >= 1 && DistinctNames(names) && i < |names| && from < |names| && i != from
    requires n < |Run(cap, names, actions).nodes[from].forwarded|
    ensures var c := Run(cap, names, actions); var e := c.nodes[from].forwarded[n];
            var x, y := c.nodes[i], Next(c, Deliver(i, from, n)).nodes[i];
            e !in x.handled ==>
              OneMoreStamp(x, y, Event(e.node, e.body, x.seqNo + 1)) && y.accepted == x.accepted + [e] &&
              y.produced == x.produced
  {
    var c := Run(cap, names, actions);
    var e := c.nodes[from].forwarded[n];
    RunKeepsInv(cap, names, actions);
    NoEventCirculates(cap, names, actions, from);
    assert e in c.nodes[from].forwarded;
    assert NodeInv(names[i], c.nodes[i]);
    if EventKey(e.node, e.seqNo) in c.nodes[i].order {
      RememberedWasHandled(c, i, from, n);
    } else {
      ReceivedNew(names[i], cap, c.nodes[i], e);
      DeliverReceives(c, i, from, n);
    }
  }

  lemma DeliverReceives(c: Cluster, i: nat, from: nat, n: nat)
    requires c.cap >= 1 && |c.names| == |c.nodes| && i < |c.nodes| && from < |c.nodes|
    requires n < |c.nodes[from].forwarded|
    ensures Next(c, Deliver(i, from, n)).nodes[i] == Received(c.names[i], c.cap, c.nodes[i], c.nodes[from].forwarded[n])
  {
  }

  /** A remembered key is the key of that very event, handled before. */
  lemma RememberedWasHandled(c: Cluster, i: nat, from: nat, n: nat)
    requires Inv(c) && DistinctNames(c.names) && i < |c.nodes| && from < |c.nodes| && n < |c.nodes[from].forwarded|
    requires DistinctStamps(c.nodes[from].forwarded)
    requires var e := c.nodes[from].forwarded[n];
             e.node == c.names[from] && EventKey(e.node, e.seqNo) in c.nodes[i].order
    ensures c.nodes[from].forwarded[n] in c.nodes[i].handled
  {
    var x, e := c.nodes[i], c.nodes[from].forwarded[n];
    assert ReceiverInv(c, i);
    var f := RememberedEvent(x, c.cap, EventKey(e.node, e.seqNo));
    EventKeyInjective(f.node, f.seqNo, e.node, e.seqNo);
    assert CameFrom(c, i, f);
    var j :| 0 <= j < |c.nodes| && c.names[j] == f.node && f in c.nodes[j].forwarded;
    assert j == from;
    var m :| 0 <= m < |c.nodes[from].forwarded| && c.nodes[from].forwarded[m] == f;
    assert m == n;
  }

  lemma RememberedEvent(x: Node, cap: nat, key: string) returns (f: Event)
    requires cap >= 1 && x.order == LastN(Keys(x.accepted), cap) && key in x.order
    ensures f in x.accepted && EventKey(f.node, f.seqNo) == key
  {
    assert key in Keys(x.accepted);
    var k :| 0 <= k < |x.accepted| && Keys(x.accepted)[k] == key;
    f := x.accepted[k];
  }

  /**
   * In every run, two acceptances of one event at a receiver have at least `cap` acceptances between
   * them, the last `cap` of which are all of different events.
   */
  lemma RepeatNeedsFullMemory(cap: nat, names: seq<string>, actions: seq<Action>, i: nat, a: nat, b: nat)
    requires cap >= 1 && i < |names|
    requires a < b < |Run(cap, names, actions).nodes[i].accepted|
    ensures var acc := Run(cap, names, actions).nodes[i].accepted;
            acc[a].node == acc[b].node && acc[a].seqNo == acc[b].seqNo ==>
              && b - a - 1 >= cap
              && forall j, k :: b - cap <= j < k <= b ==> acc[j] != acc[k]
  {
    RunKeepsInv(cap, names, actions);
    var c := Run(cap, names, actions);
    assert ReceiverInv(c, i);
    var acc := c.nodes[i].accepted;
    var keys := Keys(acc);
    assert forall k :: 0 <= k < |acc| ==> keys[k] == EventKey(acc[k].node, acc[k].seqNo);
    if acc[a].node == acc[b].node && acc[a].seqNo == acc[b].seqNo {
      assert keys[a] == keys[b];
      forall j, k | b - cap <= j < k <= b ensures acc[j] != acc[k] {
        assert keys[j] != keys[k];
      }
    }
  }

  // ----- Where every event is -----

  function OwnedBy(name: string): Event -> bool {
    (e: Event) => e.node == name
  }

  /** An event without the number that a hub gave it. */
  function Bare(e: Event): Event {
    e.(seqNo := 0)
  }

  function BareAll(es: seq<Event>): multiset<Event> {
    if es == [] then multiset{} else BareAll(es[..|es| - 1]) + multiset{Bare(es[|es| - 1])}
  }

  /** The places of a stamped event: on its way, in the buffer, taken by the publisher, or dropped. */
  ghost function Places(x: Node): multiset<Event> {
    multiset(x.inflight) + multiset(x.queue) + multiset(x.taken) + multiset(x.dropped)
  }

  /** Stamps are numbered from 1, and every stamped event is in one place. */
  ghost predicate InOnePlace(x: Node) {
    && |x.stamped| == x.seqNo && (forall k :: 0 <= k < |x.stamped| ==> x.stamped[k].seqNo == k + 1)
    && multiset(x.stamped) == Places(x)
  }

  /** Everything produced or accepted was stamped once, and nothing else. */
  ghost predicate StampedOnce(x: Node) {
    BareAll(x.stamped) == BareAll(x.produced) + BareAll(x.accepted)
  }

  /** What went on the channel is exactly what the publisher took of this node's events, in order. */
  ghost predicate ForwardsOwn(name: string, x: Node) {
    x.forwarded == Kept(x.taken, OwnedBy(name))
  }

  ghost predicate Accounted(name: string, x: Node) {
    InOnePlace(x) && StampedOnce(x) && ForwardsOwn(name, x)
  }

  lemma BareAllAppend(es: seq<Event>, e: Event)
    ensures BareAll(es + [e]) == BareAll(es) + multiset{Bare(e)}
  {
    assert (es + [e])[..|es|] == es;
  }

  /** `y` is `x` after one more stamp, as far as the places of events go. */
  ghost predicate OneMoreStamp(x: Node, y: Node, f: Event) {
    && f.seqNo == x.seqNo + 1 && f !in x.inflight
    && y.seqNo == x.seqNo + 1 && y.inflight == x.inflight + {f} && y.stamped == x.stamped + [f]
    && y.queue == x.queue && y.taken == x.taken && y.dropped == x.dropped && y.forwarded == x.forwarded
  }

  lemma StampedPlaces(x: Node, y: Node, f: Event)
    requires InOnePlace(x) && OneMoreStamp(x, y, f)
    ensures InOnePlace(y)
  {
    assert multiset(x.inflight + {f}) == multiset(x.inflight) + multiset{f};
  }

  lemma ProducedIsOnce(x: Node, y: Node, f: Event, e: Event)
    requires StampedOnce(x) && y.stamped == x.stamped + [f] && Bare(e) == Bare(f)
    requires y.produced == x.produced + [e] && y.accepted == x.accepted
    ensures StampedOnce(y)
  {
    BareAllAppend(x.stamped, f);
    BareAllAppend(x.produced, e);
  }

  lemma AcceptedIsOnce(x: Node, y: Node, f: Event, e: Event)
    requires StampedOnce(x) && y.stamped == x.stamped + [f] && Bare(e) == Bare(f)
    requires y.produced == x.produced && y.accepted == x.accepted + [e]
    ensures StampedOnce(y)
  {
    BareAllAppend(x.stamped, f);
    BareAllAppend(x.accepted, e);
  }

  lemma NextStampIsNew(name: string, x: Node, e: Event)
    requires NodeInv(name, x)
    ensures e.(seqNo := x.seqNo + 1) !in x.inflight
  {
  }

  lemma ProducedIsAccounted(name: string, x: Node, body: string)
    requires NodeInv(name, x) && Accounted(name, x)
    ensures Accounted(name, Produced(name, x, body))
  {
    var f := Event(name, body, x.seqNo + 1);
    NextStampIsNew(name, x, Event(name, body, 0));
    var y := Produced(name, x, body);
    ProducedIsOnce(x, y, f, f);
    StampedPlaces(x, y, f);
  }

  /** An accepted event is stamped and on its way to the local subscribers. */
  lemma ReceivedNew(name: string, cap: nat, x: Node, e: Event)
    requires cap >= 1 && NodeInv(name, x) && e.node != name && EventKey(e.node, e.seqNo) !in x.order
    ensures var y := Received(name, cap, x, e);
            && OneMoreStamp(x, y, Event(e.node, e.body, x.seqNo + 1))
            && y.accepted == x.accepted + [e] && y.produced == x.produced
  {
    NextStampIsNew(name, x, e);
  }

  lemma NewIsAccounted(name: string, x: Node, y: Node, e: Event)
    requires Accounted(name, x) && OneMoreStamp(x, y, Event(e.node, e.body, x.seqNo + 1))
    requires y.produced == x.produced && y.accepted == x.accepted + [e]
    ensures Accounted(name, y)
  {
    AcceptedIsOnce(x, y, Event(e.node, e.body, x.seqNo + 1), e);
    StampedPlaces(x, y, Event(e.node, e.body, x.seqNo + 1));
  }

  lemma ReceivedIsAccounted(name: string, cap: nat, x: Node, e: Event)
    requires cap >= 1 && NodeInv(name, x) && Accounted(name, x)
    ensures Accounted(name, Received(name, cap, x, e))
  {
    if e.node != name && EventKey(e.node, e.seqNo) !in x.order {
      ReceivedNew(name, cap, x, e);
      NewIsAccounted(name, x, Received(name, cap, x, e), e);
    } else {
      ReceivedOld(name, cap, x, e);
    }
  }

  /** An echo or a remembered event is not published. */
  lemma ReceivedOld(name: string, cap: nat, x: Node, e: Event)
    requires cap >= 1 && (e.node == name || EventKey(e.node, e.seqNo) in x.order)
    ensures var y := Received(name, cap, x, e); y == x.(handled := y.handled)
  {
  }

  lemma FannedOutIsAccounted(name: string, x: Node, e: Event, full: bool)
    requires Accounted(name, x)
    ensures Accounted(name, FannedOut(x, e, full))
  {
    if e in x.inflight {
      assert multiset(x.inflight) == multiset(x.inflight - {e}) + multiset{e};
    }
  }

  lemma ForwardedIsAccounted(name: string, x: Node)
    requires Accounted(name, x)
    ensures Accounted(name, Forwarded(name, x))
  {
    if x.queue != [] {
      assert x.queue == [x.queue[0]] + x.queue[1..];
      KeptAppend(x.taken, x.queue[0], OwnedBy(name));
    }
  }

  lemma ActedIsAccounted(name: string, cap: nat, x: Node, a: Action, m: Option<Event>)
    requires cap >= 1 && NodeInv(name, x) && Accounted(name, x)
    ensures Accounted(name, Acted(name, cap, x, a, m))
  {
    match a
    case Produce(_, body) =>
      ProducedIsAccounted(name, x, body);
    case FanOut(_, e, full) =>
      FannedOutIsAccounted(name, x, e, full);
    case Forward(_) =>
      ForwardedIsAccounted(name, x);
    case Deliver(_, _, _) =>
      if m.Some? {
        ReceivedIsAccounted(name, cap, x, m.value);
      }
  }

  lemma NextIsAccounted(c: Cluster, a: Action, i: nat)
    requires Inv(c) && i < |c.nodes| && Accounted(c.names[i], c.nodes[i])
    ensures Accounted(c.names[i], Next(c, a).nodes[i])
  {
    if a.i == i {
      assert NodeInv(c.names[i], c.nodes[i]);
      ActedIsAccounted(c.names[i], c.cap, c.nodes[i], a, Message(c, a));
    }
  }

  /** In every run, no event is lost but by a full buffer, and none is stamped or forwarded twice. */
  lemma {:induction false} EveryEventIsAccounted(cap: nat, names: seq<string>, actions: seq<Action>, i: nat)
    requires cap >= 1 && i < |names|
    ensures Accounted(names[i], Run(cap, names, actions).nodes[i])
  {
    if actions == [] {
    } else {
      EveryEventIsAccounted(cap, names, actions[..|actions| - 1], i);
      RunKeepsInv(cap, names, actions[..|actions| - 1]);
      NextIsAccounted(Run(cap, names, actions[..|actions| - 1]), actions[|actions| - 1], i);
    }
  }

  /** A hook's event is stamped and on its way, at any time. */
  lemma ProduceStamps(c: Cluster, i: nat, body: string)
    requires c.cap >= 1 && |c.names| == |c.nodes| && i < |c.nodes| && NodeInv(c.names[i], c.nodes[i])
    ensures var x, y := c.nodes[i], Next(c, Produce(i, body)).nodes[i];
            var e := Event(c.names[i], body, x.seqNo + 1);
            OneMoreStamp(x, y, e) && y.produced == x.produced + [e] && y.accepted == x.accepted
  {
    NextStampIsNew(c.names[i], c.nodes[i], Event(c.names[i], body, 0));
  }

  /** An event on its way gets behind the waiting ones, or is dropped if the buffer is full. */
  lemma FanOutQueues(c: Cluster, i: nat, e: Event, full: bool)
    requires c.cap >= 1 && |c.names| == |c.nodes| && i < |c.nodes| && e in c.nodes[i].inflight
    ensures var x, y := c.nodes[i], Next(c, FanOut(i, e, full)).nodes[i];
            && y.inflight == x.inflight - {e}
            && y.queue == (if full then x.queue else x.queue + [e])
            && y.dropped == (if full then x.dropped + [e] else x.dropped)
  {
  }

  /** The publisher takes the oldest event of its buffer and puts it on the channel if it is the node's own. */
  lemma ForwardTakesOldest(c: Cluster, i: nat)
    requires c.cap >= 1 && |c.names| == |c.nodes| && i < |c.nodes| && c.nodes[i].queue != []
    ensures var x, y := c.nodes[i], Next(c, Forward(i)).nodes[i];
            && x.queue == [x.queue[0]] + y.queue && y.taken == x.taken + [x.queue[0]]
            && y.forwarded == (if x.queue[0].node == c.names[i] then x.forwarded + [x.queue[0]] else x.forwarded)
  {
  }

  /** Production, fan-out and forwarding at a node that has nothing waiting. */
  function SentOut(c: Cluster, i: nat, body: string): Cluster
    requires c.cap >= 1 && |c.names| == |c.nodes| && i < |c.nodes|
  {
    var e := Event(c.names[i], body, c.nodes[i].seqNo + 1);
    Next(Next(Next(c, Produce(i, body)), FanOut(i, e, false)), Forward(i))
  }

  lemma SentOutEffect(c: Cluster, i: nat, body: string)
    requires c.cap >= 1 && |c.names| == |c.nodes| && i < |c.nodes| && c.nodes[i].queue == []
    ensures var d := SentOut(c, i, body); var x := d.nodes[i];
            && d == c.(nodes := c.nodes[i := x])
            && x.forwarded == c.nodes[i].forwarded + [Event(c.names[i], body, c.nodes[i].seqNo + 1)]
  {
    var e := Event(c.names[i], body, c.nodes[i].seqNo + 1);
    var x := Produced(c.names[i], c.nodes[i], body);
    assert e in x.inflight;
    var y := FannedOut(x, e, false);
    assert y.queue == [e];
    var z := Forwarded(c.names[i], y);
    assert c.nodes[i := x][i := y][i := z] == c.nodes[i := z];
  }

  /**
   * One event all the way, from a node that has nothing waiting to a peer: after its production,
   * fan-out, forwarding and delivery it is on its way to the peer's subscribers.
   */
  lemma EventReachesPeer(cap: nat, names: seq<string>, actions: seq<Action>, i: nat, j: nat, body: string)
    requires cap >= 1 && DistinctNames(names) && i < |names| && j < |names| && i != j
    requires Run(cap, names, actions).nodes[i].queue == []
    ensures var c := Run(cap, names, actions);
            var d, n := SentOut(c, i, body), |c.nodes[i].forwarded|;
            && |d.names| == |d.nodes| && d.cap >= 1 && n < |d.nodes[i].forwarded|
            && var x, y := c.nodes[j], Next(d, Deliver(j, i, n)).nodes[j];
               OneMoreStamp(x, y, Event(names[i], body, x.seqNo + 1))
  {
    var c := Run(cap, names, actions);
    var e := Event(names[i], body, c.nodes[i].seqNo + 1);
    RunKeepsInv(cap, names, actions);
    NewEventIsUnknown(c, i, j, e);
    SentOutEffect(c, i, body);
    DeliverReceives(SentOut(c, i, body), j, i, |c.nodes[i].forwarded|);
    ReceivedNew(names[j], cap, c.nodes[j], e);
  }

  /** A number that a node has not given yet is not in anybody's memory under its name. */
  lemma NewEventIsUnknown(c: Cluster, i: nat, j: nat, e: Event)
    requires Inv(c) && DistinctNames(c.names) && i < |c.nodes| && j < |c.nodes|
    requires e.node == c.names[i] && e.seqNo > c.nodes[i].seqNo
    ensures EventKey(e.node, e.seqNo) !in c.nodes[j].order
  {
    assert ReceiverInv(c, j);
    if EventKey(e.node, e.seqNo) in c.nodes[j].order {
      var f := RememberedEvent(c.nodes[j], c.cap, EventKey(e.node, e.seqNo));
      EventKeyInjective(f.node, f.seqNo, e.node, e.seqNo);
      ForwardedIsOld(c, i, j, f);
    }
  }

  lemma ForwardedIsOld(c: Cluster, i: nat, j: nat, f: Event)
    requires Inv(c) && DistinctNames(c.names) && i < |c.nodes| && j < |c.nodes|
    requires CameFrom(c, j, f) && f.node == c.names[i]
    ensures f.seqNo <= c.nodes[i].seqNo
  {
    var k :| 0 <= k < |c.nodes| && c.names[k] == f.node && f in c.nodes[k].forwarded;
    assert k == i;
    assert NodeInv(c.names[i], c.nodes[i]);
    assert f in c.nodes[i].queue + c.nodes[i].forwarded;
  }
}
