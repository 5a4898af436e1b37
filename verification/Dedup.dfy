/** `lru`, the FIFO-with-set that recognises repeated events, and the keys it stores. */
module Dedup {
  import opened Slices

  // ----- Keys -----

  /** `strconv.FormatInt(n, 10)`. */
  function FormatInt(n: int): string {
    if n < 0 then "-" + Digits(-n) else Digits(n)
  }

  function Digits(n: nat): (s: string)
    ensures s != [] && forall i :: 0 <= i < |s| ==> '0' <= s[i] <= '9'
  {
    if n < 10 then ['0' + n as char] else Digits(n / 10) + ['0' + (n % 10) as char]
  }

  function Value(s: string): int {
    if s == [] then 0 else Value(s[..|s| - 1]) * 10 + (s[|s| - 1] as int - '0' as int)
  }

  lemma {:induction false} ValueOfDigits(n: nat)
    ensures Value(Digits(n)) == n
  {
    if n >= 10 {
      ValueOfDigits(n / 10);
      assert Digits(n)[..|Digits(n)| - 1] == Digits(n / 10);
    } else {
      assert Digits(n)[..0] == [];
    }
  }

  function ParseInt(s: string): int {
    if s != [] && s[0] == '-' then -Value(s[1..]) else Value(s)
  }

  lemma ParseFormatted(n: int)
    ensures ParseInt(FormatInt(n)) == n
  {
    if n < 0 {
      ValueOfDigits(-n);
      assert FormatInt(n)[1..] == Digits(-n);
    } else {
      ValueOfDigits(n);
      assert FormatInt(n)[0] >= '0';
    }
  }

  lemma NoColon(n: int)
    ensures ':' !in FormatInt(n)
  {
    var d := Digits(if n < 0 then -n else n);
    assert ':' !in d;
  }

  /** `ev.Node + ":" + strconv.FormatInt(ev.Seq, 10)`. */
  function EventKey(node: string, seqNo: int): string {
    node + ":" + FormatInt(seqNo)
  }

  lemma LastColon(a: string, f: string, b: string, g: string)
    requires a + ":" + f == b + ":" + g
    requires ':' !in f && ':' !in g
    requires |a| <= |b|
    ensures a == b && f == g
  {
    var s, t := a + ":" + f, b + ":" + g;
    assert t[|b|] == ':';
    assert forall i :: |a| < i < |s| ==> s[i] == f[i - |a| - 1];
    assert a == s[..|a|] && b == t[..|b|];
    assert f == s[|a| + 1..] && g == t[|b| + 1..];
  }

  /** The last colon ends the name, so names that contain colons cannot collide either. */
  lemma EventKeyInjective(node1: string, n1: int, node2: string, n2: int)
    requires EventKey(node1, n1) == EventKey(node2, n2)
    ensures node1 == node2 && n1 == n2
  {
    NoColon(n1);
    NoColon(n2);
    if |node1| <= |node2| {
      LastColon(node1, FormatInt(n1), node2, FormatInt(n2));
    } else {
      LastColon(node2, FormatInt(n2), node1, FormatInt(n1));
    }
    ParseFormatted(n1);
    ParseFormatted(n2);
  }

  // ----- The bounded memory -----

  /** The remembered keys after `add(key)`, oldest first. */
  function Remembered(order: seq<string>, cap: nat, key: string): seq<string>
    requires cap >= 1
  {
    if key in order then order
    else if |order| >= cap then order[1..] + [key]
    else order + [key]
  }

  class Lru {
    const cap: nat
    var order: seq<string>
    var keys: set<string>

    ghost predicate Valid()
      reads this
    {
      && cap >= 1 && |order| <= cap
      && Distinct(order)
      && keys == set k | k in order
    }

    constructor (cap: nat)
      requires cap >= 1
      ensures Valid() && order == [] && this.cap == cap
    {
      this.cap := cap;
      order, keys := [], {};
    }

    /** True when the key was new; the oldest key makes room for it. */
    method Add(key: string) returns (isNew: bool)
      requires Valid()
      modifies this
      ensures Valid()
      ensures isNew == (key !in old(order))
      ensures order == Remembered(old(order), cap, key)
    {
      if key in keys {
        return false;
      }
      if |order| >= cap {
        var oldest := order[0];
        order := order[1..];
        keys := keys - {oldest};
      }
      order := order + [key];
      keys := keys + {key};
      return true;
    }
  }

  /** The keys that were accepted when `presented` were added to an empty memory, and what it then holds. */
  function Accepted(presented: seq<string>, cap: nat): seq<string>
    requires cap >= 1
  {
    if presented == [] then []
    else
      var before, key := presented[..|presented| - 1], presented[|presented| - 1];
      if key in Memory(before, cap) then Accepted(before, cap) else Accepted(before, cap) + [key]
  }

  function Memory(presented: seq<string>, cap: nat): seq<string>
    requires cap >= 1
  {
    if presented == [] then []
    else Remembered(Memory(presented[..|presented| - 1], cap), cap, presented[|presented| - 1])
  }

  function LastN<T>(s: seq<T>, n: nat): seq<T> {
    if |s| <= n then s else s[|s| - n..]
  }

  /** The accepted keys `cap` apart or closer are all different. */
  ghost predicate Spaced(s: seq<string>, cap: nat) {
    forall i, j :: 0 <= i < j < |s| && j - i <= cap ==> s[i] != s[j]
  }

  lemma RememberedIsLast(accepted: seq<string>, cap: nat, key: string)
    requires cap >= 1
    requires key !in LastN(accepted, cap)
    ensures Remembered(LastN(accepted, cap), cap, key) == LastN(accepted + [key], cap)
  {
    if |accepted| >= cap {
      var start := |accepted| - cap;
      assert LastN(accepted, cap) == accepted[start..];
      assert accepted[start..][1..] == accepted[start + 1..];
      assert (accepted + [key])[start + 1..] == accepted[start + 1..] + [key];
    }
  }

  lemma StaysSpaced(accepted: seq<string>, cap: nat, key: string)
    requires Spaced(accepted, cap) && key !in LastN(accepted, cap)
    ensures Spaced(accepted + [key], cap)
  {
    var start := if |accepted| <= cap then 0 else |accepted| - cap;
    assert LastN(accepted, cap) == accepted[start..];
    forall i | start <= i < |accepted| ensures accepted[i] != key {
      assert accepted[i] == accepted[start..][i - start];
    }
  }

  /** The memory is always the last `cap` accepted keys; a repeat is accepted only `cap` acceptances later. */
  lemma {:induction false} MemoryIsLastAccepted(presented: seq<string>, cap: nat)
    requires cap >= 1
    ensures Memory(presented, cap) == LastN(Accepted(presented, cap), cap)
    ensures Spaced(Accepted(presented, cap), cap)
  {
    if presented == [] {
    } else {
      var before, key := presented[..|presented| - 1], presented[|presented| - 1];
      MemoryIsLastAccepted(before, cap);
      if key !in Memory(before, cap) {
        RememberedIsLast(Accepted(before, cap), cap, key);
        StaysSpaced(Accepted(before, cap), cap, key);
      }
    }
  }
}
