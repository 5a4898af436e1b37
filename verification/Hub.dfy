/** `Hub`: the in-process event bus, one call at a time. */
module Hub {
  import opened Slices

  /** `body` stands for the type, timestamp and payload, which the hub only copies. */
  datatype Event = Event(node: string, body: string, seqNo: int)

  /** A buffered Go channel. Sending on or closing a closed channel panics, hence the preconditions. */
  class Channel {
    const cap: nat
    var buf: seq<Event>
    var closed: bool

    constructor (cap: nat)
      ensures this.cap == cap && buf == [] && !closed
    {
      this.cap := cap;
      buf, closed := [], false;
    }

    /** `select { case c <- e: default: }`. */
    method TrySend(e: Event) returns (sent: bool)
      requires !closed
      modifies this`buf
      ensures sent == (|old(buf)| < cap)
      ensures buf == Offered(old(buf), cap, e)
    {
      sent := |buf| < cap;
      if sent {
        buf := buf + [e];
      }
    }

    method Close()
      requires !closed
      modifies this`closed
      ensures closed
    {
      closed := true;
    }
  }

  /** A full buffer drops the event. */
  function Offered(buf: seq<Event>, cap: nat, e: Event): seq<Event> {
    if |buf| < cap then buf + [e] else buf
  }

  function FullBuffers(bufs: seq<seq<Event>>, cap: nat): nat {
    if bufs == [] then 0
    else FullBuffers(bufs[..|bufs| - 1], cap) + (if |bufs[|bufs| - 1]| < cap then 0 else 1)
  }

  lemma FullBuffersStep(bufs: seq<seq<Event>>, cap: nat, i: nat)
    requires i < |bufs|
    ensures FullBuffers(bufs[..i + 1], cap) == FullBuffers(bufs[..i], cap) + (if |bufs[i]| < cap then 0 else 1)
  {
    assert bufs[..i + 1][..i] == bufs[..i];
  }

  function Except<T(==)>(x: T): T -> bool {
    (y: T) => y != x
  }

  /** The registry without one channel. */
  function Without<T(==)>(s: seq<T>, x: T): seq<T> {
    Kept(s, Except(x))
  }

  lemma WithoutKeepsRest<T>(s: seq<T>, x: T)
    ensures forall y :: y in Without(s, x) <==> y in s && y != x
    ensures Distinct(s) ==> Distinct(Without(s, x))
  {
    KeptRows(s, Except(x));
    if Distinct(s) {
      KeptDistinct(s, Except(x));
    }
  }

  /** The filter of `Unsubscribe`, which works in place and closes the target on the way. */
  method RemoveInPlace(list: array<Channel>, target: Channel) returns (n: nat)
    requires Distinct(list[..]) && forall i :: 0 <= i < list.Length ==> !list[i].closed
    modifies list, target`closed
    ensures n <= list.Length && list[..n] == Without(old(list[..]), target)
    ensures target.closed == (target in old(list[..]) || old(target.closed))
  {
    ghost var before := list[..];
    n := 0;
    for i := 0 to list.Length
      invariant Filtered(list[..], before, i, n, Except(target))
      invariant target.closed == (target in before[..i] || old(target.closed))
    {
      FilteredStep(list[..], before, i, n, Except(target));
      assert before[..i + 1] == before[..i] + [before[i]];
      var s := list[i];
      if s == target {
        assert target !in before[..i];
        s.Close();
      } else {
        list[n] := s;
        n := n + 1;
      }
    }
    FilteredDone(list[..], before, n, Except(target));
    assert before[..list.Length] == before;
  }

  class Hub {
    const bufSize: nat
    var subs: seq<Channel>
    var drops: int
    var seqNo: int
    var closed: bool

    constructor (bufSize: nat)
      ensures Valid() && subs == [] && drops == 0 && seqNo == 0 && !closed && this.bufSize == bufSize
    {
      this.bufSize := bufSize;
      subs, drops, seqNo, closed := [], 0, 0, false;
    }

    /** Registered channels are distinct and open. */
    ghost predicate Valid()
      reads this, subs
    {
      && Distinct(subs)
      && (forall i :: 0 <= i < |subs| ==> !subs[i].closed && subs[i].cap == bufSize)
    }

    ghost function Buffers(): seq<seq<Event>>
      reads this, subs
    {
      seq(|subs|, i requires 0 <= i < |subs| reads this, subs => subs[i].buf)
    }

    method Subscribe() returns (ch: Channel)
      requires Valid()
      modifies this`subs
      ensures Valid() && fresh(ch) && ch.buf == [] && subs == old(subs) + [ch]
    {
      ch := new Channel(bufSize);
      subs := subs + [ch];
    }

    /** Closes the channel if it is registered, and does nothing otherwise. */
    method Unsubscribe(target: Channel)
      requires Valid()
      modifies this`subs, target`closed
      ensures Valid() && subs == Without(old(subs), target)
      ensures forall s :: s in subs <==> s in old(subs) && s != target
      ensures target.closed == (target in old(subs) || old(target.closed))
    {
      var list := new Channel[|subs|](i requires 0 <= i < |subs| reads this => subs[i]);
      assert list[..] == subs;
      var n := RemoveInPlace(list, target);
      WithoutKeepsRest(subs, target);
      subs := list[..n];
      assert forall s :: s in subs <==> s in old(subs) && s != target;
      assert forall i :: 0 <= i < |subs| ==> subs[i] in subs;
    }

    /** The loop of `Publish`: every subscriber gets the event, or its drop is counted. */
    method FanOut(e: Event)
      requires Valid()
      modifies this`drops, subs`buf
      ensures drops == old(drops) + FullBuffers(old(Buffers()), bufSize)
      ensures forall i :: 0 <= i < |subs| ==> subs[i].buf == Offered(old(subs[i].buf), bufSize, e)
    {
      ghost var bufs := Buffers();
      for i := 0 to |subs|
        invariant drops == old(drops) + FullBuffers(bufs[..i], bufSize)
        invariant forall k :: 0 <= k < i ==> subs[k].buf == Offered(old(subs[k].buf), bufSize, e)
        invariant forall k :: i <= k < |subs| ==> subs[k].buf == old(subs[k].buf)
      {
        FullBuffersStep(bufs, bufSize, i);
        var sent := subs[i].TrySend(e);
        if !sent {
          drops := drops + 1;
        }
      }
      assert bufs[..|bufs|] == bufs;
    }

    /** Stamps the event and fans it out; a closed hub ignores it. */
    method Publish(e: Event)
      requires Valid()
      modifies this`seqNo, this`drops, subs`buf
      ensures Valid()
      ensures closed ==> seqNo == old(seqNo) && drops == old(drops) && Buffers() == old(Buffers())
      ensures !closed ==>
        && seqNo == old(seqNo) + 1
        && drops == old(drops) + FullBuffers(old(Buffers()), bufSize)
        && forall i :: 0 <= i < |subs| ==> subs[i].buf == Offered(old(subs[i].buf), bufSize, e.(seqNo := seqNo))
    {
      if closed {
        return;
      }
      seqNo := seqNo + 1;
      assert Buffers() == old(Buffers());
      FanOut(e.(seqNo := seqNo));
    }

    method Close()
      requires Valid()
      modifies this`closed, this`subs, subs`closed
      ensures Valid() && closed
      ensures old(closed) ==> subs == old(subs)
      ensures !old(closed) ==> subs == [] && forall i :: 0 <= i < |old(subs)| ==> old(subs)[i].closed
    {
      if closed {
        return;
      }
      closed := true;
      for i := 0 to |subs|
        invariant closed && subs == old(subs)
        invariant forall k :: 0 <= k < i ==> subs[k].closed
        invariant forall k :: i <= k < |subs| ==> !subs[k].closed
      {
        subs[i].Close();
      }
      subs := [];
    }
  }
}
