/** Filtering a slice, also in place over its own array as `out := s[:0]` does. */
module Slices {

  ghost predicate Distinct<T>(s: seq<T>) {
    forall i, j :: 0 <= i < j < |s| ==> s[i] != s[j]
  }

  /** The elements that pass a filter, in order. */
  function Kept<T>(s: seq<T>, want: T -> bool): seq<T> {
    if s == [] then []
    else
      var before, last := Kept(s[..|s| - 1], want), s[|s| - 1];
      if want(last) then before + [last] else before
  }

  lemma KeptAppend<T>(s: seq<T>, x: T, want: T -> bool)
    ensures Kept(s + [x], want) == if want(x) then Kept(s, want) + [x] else Kept(s, want)
  {
    assert (s + [x])[..|s|] == s;
  }

  /** One more element of the slice. */
  lemma KeptStep<T>(s: seq<T>, i: nat, want: T -> bool)
    requires i < |s|
    ensures Kept(s[..i + 1], want) == if want(s[i]) then Kept(s[..i], want) + [s[i]] else Kept(s[..i], want)
  {
    assert s[..i + 1][..i] == s[..i];
  }

  lemma {:induction false} KeptConcat<T>(a: seq<T>, b: seq<T>, want: T -> bool)
    ensures Kept(a + b, want) == Kept(a, want) + Kept(b, want)
  {
    if b == [] {
      assert a + b == a;
    } else {
      var last := |b| - 1;
      KeptConcat(a, b[..last], want);
      assert (a + b)[..|a + b| - 1] == a + b[..last];
    }
  }

  /** Exactly the elements that pass. */
  lemma {:induction false} KeptRows<T>(s: seq<T>, want: T -> bool)
    ensures forall i :: 0 <= i < |Kept(s, want)| ==> Kept(s, want)[i] in s && want(Kept(s, want)[i])
    ensures forall i :: 0 <= i < |s| && want(s[i]) ==> s[i] in Kept(s, want)
  {
    if s == [] {
    } else {
      KeptRows(s[..|s| - 1], want);
    }
  }

  lemma {:induction false} KeptDistinct<T>(s: seq<T>, want: T -> bool)
    requires Distinct(s)
    ensures Distinct(Kept(s, want))
  {
    if s == [] {
    } else {
      var before := s[..|s| - 1];
      KeptDistinct(before, want);
      KeptRows(before, want);
      assert s[|s| - 1] !in before;
    }
  }

  lemma {:induction false} KeptIsShorter<T>(s: seq<T>, want: T -> bool)
    ensures |Kept(s, want)| <= |s|
  {
    if s == [] {
    } else {
      KeptIsShorter(s[..|s| - 1], want);
    }
  }

  lemma {:induction false} KeptAll<T>(s: seq<T>, want: T -> bool)
    requires forall i :: 0 <= i < |s| ==> want(s[i])
    ensures Kept(s, want) == s
  {
    if s == [] {
    } else {
      KeptAll(s[..|s| - 1], want);
    }
  }

  lemma {:induction false} KeptNone<T>(s: seq<T>, want: T -> bool)
    requires forall i :: 0 <= i < |s| ==> !want(s[i])
    ensures Kept(s, want) == []
  {
    if s == [] {
    } else {
      KeptNone(s[..|s| - 1], want);
    }
  }

  /** What a filter in place has done after `i` elements: `n` of them kept, the rest untouched. */
  ghost predicate Filtered<T>(a: seq<T>, before: seq<T>, i: nat, n: nat, want: T -> bool) {
    && |a| == |before| && n <= i <= |a|
    && a[..n] == Kept(before[..i], want) && a[i..] == before[i..]
  }

  /** Writing behind the place of reading spoils nothing that is still to be read. */
  lemma FilteredStep<T>(a: seq<T>, before: seq<T>, i: nat, n: nat, want: T -> bool)
    requires Filtered(a, before, i, n, want) && i < |a|
    ensures a[i] == before[i]
    ensures want(a[i]) ==> Filtered(a[n := a[i]], before, i + 1, n + 1, want)
    ensures !want(a[i]) ==> Filtered(a, before, i + 1, n, want)
  {
    assert a[i] == a[i..][0] == before[i..][0];
    KeptStep(before, i, want);
    assert a[i + 1..] == a[i..][1..] && before[i + 1..] == before[i..][1..];
    assert a[n := a[i]][..n + 1] == a[..n] + [a[i]];
    assert a[n := a[i]][i + 1..] == a[i + 1..];
  }

  lemma FilteredDone<T>(a: seq<T>, before: seq<T>, n: nat, want: T -> bool)
    requires Filtered(a, before, |a|, n, want)
    ensures a[..n] == Kept(before, want)
  {
    assert before[..|a|] == before;
  }

  /** `out := s[:0]` and the loop that appends to it: reads and writes share the array. */
  method FilterInPlace<T>(a: array<T>, want: T -> bool) returns (n: nat)
    modifies a
    ensures n <= a.Length && a[..n] == Kept(old(a[..]), want)
  {
    ghost var before := a[..];
    n := 0;
    for i := 0 to a.Length
      invariant Filtered(a[..], before, i, n, want)
    {
      FilteredStep(a[..], before, i, n, want);
      var x := a[i];
      if want(x) {
        a[n] := x;
        n := n + 1;
      }
    }
    FilteredDone(a[..], before, n, want);
  }
}
