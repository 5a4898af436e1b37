/** Go's string order, composite sort keys and the contract of `sort.Slice`. */
module Ordering {

  /** Go's `a < b` on strings: the first difference decides, a proper prefix comes first. */
  predicate StringLess(a: string, b: string) {
    b != [] && (a == [] || a[0] < b[0] || (a[0] == b[0] && StringLess(a[1..], b[1..])))
  }

  /** The fields a comparator looks at, in the order it looks at them. */
  type Key = seq<string>

  predicate KeyLess(a: Key, b: Key) {
    b != [] && (a == [] || StringLess(a[0], b[0]) || (a[0] == b[0] && KeyLess(a[1..], b[1..])))
  }

  // ----- What the order is -----

  /** Up to `k` the strings agree; there the first one ends, or has the smaller byte. */
  ghost predicate FirstDifference(a: string, b: string, k: nat) {
    k <= |a| && k < |b| && (forall i :: 0 <= i < k ==> a[i] == b[i]) && (k == |a| || a[k] < b[k])
  }

  ghost predicate Before(a: string, b: string) {
    exists k :: FirstDifference(a, b, k)
  }

  lemma FirstDifferenceShifts(a: string, b: string, k: nat)
    requires a != [] && b != [] && a[0] == b[0]
    ensures FirstDifference(a, b, k + 1) <==> FirstDifference(a[1..], b[1..], k)
  {
    assert forall i :: 1 <= i < |a| ==> a[i] == a[1..][i - 1];
    assert forall i :: 1 <= i < |b| ==> b[i] == b[1..][i - 1];
  }

  /** `StringLess` is the lexicographic order: the first difference decides, a proper prefix comes first. */
  lemma {:induction false} StringLessIsBefore(a: string, b: string)
    ensures StringLess(a, b) <==> Before(a, b)
  {
    if a == [] || b == [] || a[0] != b[0] {
      assert StringLess(a, b) ==> FirstDifference(a, b, 0);
    } else {
      StringLessIsBefore(a[1..], b[1..]);
      if k: nat :| FirstDifference(a[1..], b[1..], k) {
        FirstDifferenceShifts(a, b, k);
      }
      if k: nat :| FirstDifference(a, b, k) {
        FirstDifferenceShifts(a, b, k - 1);
      }
    }
  }

  ghost predicate FirstPartDifference(a: Key, b: Key, k: nat) {
    k <= |a| && k < |b| && (forall i :: 0 <= i < k ==> a[i] == b[i]) && (k == |a| || Before(a[k], b[k]))
  }

  /** Keys compare by their first different part. */
  ghost predicate KeyBefore(a: Key, b: Key) {
    exists k :: FirstPartDifference(a, b, k)
  }

  lemma FirstPartShifts(a: Key, b: Key, k: nat)
    requires a != [] && b != [] && a[0] == b[0]
    ensures FirstPartDifference(a, b, k + 1) <==> FirstPartDifference(a[1..], b[1..], k)
  {
    assert forall i :: 1 <= i < |a| ==> a[i] == a[1..][i - 1];
    assert forall i :: 1 <= i < |b| ==> b[i] == b[1..][i - 1];
  }

  lemma {:induction false} KeyLessIsBefore(a: Key, b: Key)
    ensures KeyLess(a, b) <==> KeyBefore(a, b)
  {
    if a == [] || b == [] {
      assert KeyLess(a, b) ==> FirstPartDifference(a, b, 0);
    } else if a[0] != b[0] {
      StringLessIsBefore(a[0], b[0]);
      assert KeyLess(a, b) ==> FirstPartDifference(a, b, 0);
    } else {
      StringLessTotal(a[0], b[0]);
      KeyLessIsBefore(a[1..], b[1..]);
      if k: nat :| FirstPartDifference(a[1..], b[1..], k) {
        FirstPartShifts(a, b, k);
      }
      if k: nat :| FirstPartDifference(a, b, k) {
        StringLessIsBefore(a[0], b[0]);
        FirstPartShifts(a, b, k - 1);
      }
    }
  }

  /** Nothing stands behind something that comes after it. */
  ghost predicate InOrder<T>(s: seq<T>, key: T -> Key) {
    forall i, j :: 0 <= i < j < |s| ==> !KeyBefore(key(s[j]), key(s[i]))
  }

  ghost predicate InStrictOrder<T>(s: seq<T>, key: T -> Key) {
    forall i, j :: 0 <= i < j < |s| ==> KeyBefore(key(s[i]), key(s[j]))
  }

  lemma SortedIsInOrder<T>(s: seq<T>, key: T -> Key)
    ensures SortedBy(s, key) <==> InOrder(s, key)
  {
    forall i, j | 0 <= i < j < |s| ensures KeyLess(key(s[j]), key(s[i])) <==> KeyBefore(key(s[j]), key(s[i])) {
      KeyLessIsBefore(key(s[j]), key(s[i]));
    }
  }

  lemma StrictlySortedIsInOrder<T>(s: seq<T>, key: T -> Key)
    ensures StrictlySortedBy(s, key) <==> InStrictOrder(s, key)
  {
    forall i, j | 0 <= i < j < |s| ensures KeyLess(key(s[i]), key(s[j])) <==> KeyBefore(key(s[i]), key(s[j])) {
      KeyLessIsBefore(key(s[i]), key(s[j]));
    }
  }

  // ----- The order is total -----

  lemma {:induction false} StringLessTotal(a: string, b: string)
    ensures StringLess(a, b) || StringLess(b, a) || a == b
    ensures !(StringLess(a, b) && StringLess(b, a))
    ensures !StringLess(a, a)
  {
    if a != [] && b != [] {
      StringLessTotal(a[1..], b[1..]);
      assert a == [a[0]] + a[1..] && b == [b[0]] + b[1..];
    }
    if a == [] {
    } else {
      StringLessTotal(a[1..], a[1..]);
    }
  }

  lemma {:induction false} StringLessTransitive(a: string, b: string, c: string)
    requires StringLess(a, b) && StringLess(b, c)
    ensures StringLess(a, c)
  {
    if a != [] && a[0] == b[0] == c[0] {
      StringLessTransitive(a[1..], b[1..], c[1..]);
    }
  }

  /** Exactly one of a < b, b < a and a == b holds. */
  lemma {:induction false} KeyLessTotal(a: Key, b: Key)
    ensures KeyLess(a, b) || KeyLess(b, a) || a == b
    ensures !(KeyLess(a, b) && KeyLess(b, a))
    ensures !KeyLess(a, a)
  {
    if a != [] && b != [] {
      StringLessTotal(a[0], b[0]);
      KeyLessTotal(a[1..], b[1..]);
      assert a == [a[0]] + a[1..] && b == [b[0]] + b[1..];
    }
    if a == [] {
    } else {
      StringLessTotal(a[0], a[0]);
      KeyLessTotal(a[1..], a[1..]);
    }
  }

  lemma {:induction false} KeyLessTransitive(a: Key, b: Key, c: Key)
    requires KeyLess(a, b) && KeyLess(b, c)
    ensures KeyLess(a, c)
  {
    if a == [] {
    } else {
      StringLessTotal(a[0], b[0]);
      StringLessTotal(b[0], c[0]);
      if StringLess(a[0], b[0]) && StringLess(b[0], c[0]) {
        StringLessTransitive(a[0], b[0], c[0]);
      } else if a[0] == b[0] == c[0] {
        KeyLessTransitive(a[1..], b[1..], c[1..]);
      }
    }
  }

  predicate SortedBy<T>(s: seq<T>, key: T -> Key) {
    forall i, j :: 0 <= i < j < |s| ==> !KeyLess(key(s[j]), key(s[i]))
  }

  predicate StrictlySortedBy<T>(s: seq<T>, key: T -> Key) {
    forall i, j :: 0 <= i < j < |s| ==> KeyLess(key(s[i]), key(s[j]))
  }

  predicate DistinctKeys<T>(s: seq<T>, key: T -> Key) {
    forall i, j :: 0 <= i < j < |s| ==> key(s[i]) != key(s[j])
  }

  lemma NotLessTransitive(a: Key, b: Key, c: Key)
    requires !KeyLess(b, a) && !KeyLess(c, b)
    ensures !KeyLess(c, a)
  {
    if KeyLess(c, a) {
      KeyLessTotal(a, b);
      KeyLessTotal(b, c);
      if KeyLess(a, b) {
        KeyLessTransitive(c, a, b);
      }
    }
  }

  /** `sort.Slice`: some sorted rearrangement. It is not stable, so the order of equal keys is not promised. */
  method SortSlice<T>(s: seq<T>, key: T -> Key) returns (r: seq<T>)
    ensures multiset(r) == multiset(s)
    ensures |r| == |s|
    ensures SortedBy(r, key)
  {
    r := [];
    for n := 0 to |s|
      invariant multiset(r) == multiset(s[..n])
      invariant |r| == n
      invariant SortedBy(r, key)
    {
      var k := n;
      while k > 0 && KeyLess(key(s[n]), key(r[k - 1]))
        invariant 0 <= k <= n
        invariant forall i :: k <= i < n ==> KeyLess(key(s[n]), key(r[i]))
      {
        k := k - 1;
      }
      InsertKeepsSorted(r, k, s[n], key);
      InsertAddsOne(r, k, s[n]);
      assert s[..n + 1] == s[..n] + [s[n]];
      r := r[..k] + [s[n]] + r[k..];
    }
    assert s[..|s|] == s;
  }

  lemma InsertAddsOne<T>(r: seq<T>, k: nat, x: T)
    requires k <= |r|
    ensures multiset(r[..k] + [x] + r[k..]) == multiset(r) + multiset{x}
  {
    assert r == r[..k] + r[k..];
  }

  lemma InsertKeepsSorted<T>(r: seq<T>, k: nat, x: T, key: T -> Key)
    requires k <= |r|
    requires SortedBy(r, key)
    requires forall i :: k <= i < |r| ==> KeyLess(key(x), key(r[i]))
    requires k > 0 ==> !KeyLess(key(x), key(r[k - 1]))
    ensures SortedBy(r[..k] + [x] + r[k..], key)
  {
    forall i | 0 <= i < k ensures !KeyLess(key(x), key(r[i])) {
      if i < k - 1 {
        NotLessTransitive(key(r[i]), key(r[k - 1]), key(x));
      }
    }
    forall i | k <= i < |r| ensures !KeyLess(key(r[i]), key(x)) {
      KeyLessTotal(key(x), key(r[i]));
    }
  }

  /** Two occurrences of one key in a rearrangement would be two occurrences in the original. */
  lemma PermutationKeepsDistinct<T>(s: seq<T>, r: seq<T>, key: T -> Key)
    requires multiset(r) == multiset(s)
    requires DistinctKeys(s, key)
    ensures DistinctKeys(r, key)
    ensures forall x :: x in r <==> x in s
  {
    forall x ensures x in r <==> x in s {
      assert x in r <==> x in multiset(r);
      assert x in s <==> x in multiset(s);
    }
    forall i, j | 0 <= i < j < |r| ensures key(r[i]) != key(r[j]) {
      if key(r[i]) == key(r[j]) {
        assert r[i] in s && r[j] in s;
        assert r[i] == r[j];
        var x := r[i];
        assert multiset(r)[x] >= 2 by {
          assert r == r[..j] + [r[j]] + r[j + 1..];
          assert x in r[..j];
        }
        OccursOnce(s, x, key);
        assert false;
      }
    }
  }

  lemma OccursOnce<T>(s: seq<T>, x: T, key: T -> Key)
    requires DistinctKeys(s, key)
    ensures multiset(s)[x] <= 1
  {
    if x in s {
      var i :| 0 <= i < |s| && s[i] == x;
      assert s == s[..i] + [x] + s[i + 1..];
      assert x !in s[..i] && x !in s[i + 1..];
    }
  }

  lemma SortedAndDistinctIsStrict<T>(s: seq<T>, key: T -> Key)
    requires SortedBy(s, key) && DistinctKeys(s, key)
    ensures StrictlySortedBy(s, key)
  {
    forall i, j | 0 <= i < j < |s| ensures KeyLess(key(s[i]), key(s[j])) {
      KeyLessTotal(key(s[i]), key(s[j]));
    }
  }
}
