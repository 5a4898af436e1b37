/** The paginated lists of clients, subscriptions and sessions: per node, and merged over the cluster. */
module ClusterLists {
  import opened Ordering
  import opened Pagination
  import opened Results
  import opened Slices

  /**
   * A row: its sort key (client id, or client id and topic), the member it is labelled with,
   * whether it is an online session, and the other columns.
   */
  datatype Row<T> = Row(key: Key, node: string, online: bool, data: T)

  function RowKey<T>(r: Row<T>): Key {
    r.key
  }

  /** Which of several rows with one key survives the merge. */
  datatype Policy = FirstWins | OnlineWins

  function Pick<T>(policy: Policy, rows: seq<Row<T>>): Row<T>
    requires rows != []
  {
    if |rows| == 1 then rows[0]
    else
      var best, last := Pick(policy, rows[..|rows| - 1]), rows[|rows| - 1];
      if policy.OnlineWins? && last.online && !best.online then last else best
  }

  /** The first row, or for sessions the first online row if there is one. */
  lemma {:induction false} PickIsFirst<T>(policy: Policy, rows: seq<Row<T>>) returns (i: nat)
    requires rows != []
    ensures i < |rows| && Pick(policy, rows) == rows[i]
    ensures policy.FirstWins? ==> i == 0
    ensures policy.OnlineWins? ==>
      && (rows[i].online ==> forall j :: 0 <= j < i ==> !rows[j].online)
      && (!rows[i].online ==> i == 0 && forall j :: 0 <= j < |rows| ==> !rows[j].online)
  {
    if |rows| == 1 {
      i := 0;
    } else {
      var last := |rows| - 1;
      i := PickIsFirst(policy, rows[..last]);
      if policy.OnlineWins? && rows[last].online && !rows[i].online {
        i := last;
      }
    }
  }

  /** The rows with one key, in order. */
  function RowsFor<T>(rows: seq<Row<T>>, key: Key): seq<Row<T>> {
    if rows == [] then []
    else
      var before, last := RowsFor(rows[..|rows| - 1], key), rows[|rows| - 1];
      if last.key == key then before + [last] else before
  }

  predicate HasKey<T>(rows: seq<Row<T>>, key: Key) {
    exists i :: 0 <= i < |rows| && rows[i].key == key
  }

  lemma {:induction false} RowsForSome<T>(rows: seq<Row<T>>, key: Key)
    ensures RowsFor(rows, key) != [] <==> HasKey(rows, key)
    ensures forall i :: 0 <= i < |RowsFor(rows, key)| ==> RowsFor(rows, key)[i].key == key
  {
    if rows == [] {
    } else {
      var last := |rows| - 1;
      RowsForSome(rows[..last], key);
      if HasKey(rows[..last], key) {
        var i :| 0 <= i < last && rows[..last][i].key == key;
        assert rows[i].key == key;
      }
      if HasKey(rows, key) && rows[last].key != key {
        var i :| 0 <= i < |rows| && rows[i].key == key;
        assert rows[..last][i].key == key;
      }
    }
  }

  lemma {:induction false} RowsForConcat<T>(a: seq<Row<T>>, b: seq<Row<T>>, key: Key)
    ensures RowsFor(a + b, key) == RowsFor(a, key) + RowsFor(b, key)
  {
    if b == [] {
      assert a + b == a;
    } else {
      var last := |b| - 1;
      RowsForConcat(a, b[..last], key);
      assert (a + b)[..|a + b| - 1] == a + b[..last];
    }
  }

  // ----- What a merged list is -----

  function Labelled<T>(rows: seq<Row<T>>, name: string): (r: seq<Row<T>>)
    ensures |r| == |rows| && forall i :: 0 <= i < |r| ==> r[i] == rows[i].(node := name)
  {
    seq(|rows|, i requires 0 <= i < |rows| => rows[i].(node := name))
  }

  /** All rows that arrived, in member order, labelled with the member; failed members send none. */
  function AllRows<T>(names: seq<string>, answers: seq<Option<seq<Row<T>>>>): seq<Row<T>>
    requires |names| == |answers|
  {
    if names == [] then []
    else
      var last := |names| - 1;
      var before := AllRows(names[..last], answers[..last]);
      if answers[last].Some? then before + Labelled(answers[last].value, names[last]) else before
  }

  /** One row per key that passes the filter, chosen by the policy, in strictly increasing key order. */
  ghost predicate IsMerged<T>(s: seq<Row<T>>, all: seq<Row<T>>, policy: Policy, keep: Key -> bool) {
    && StrictlySortedBy(s, RowKey)
    && (forall i :: 0 <= i < |s| ==> IsChosen(s[i], all, policy, keep))
    && (forall j :: 0 <= j < |all| && keep(all[j].key) ==> HasKey(s, all[j].key))
  }

  ghost predicate IsChosen<T>(r: Row<T>, all: seq<Row<T>>, policy: Policy, keep: Key -> bool) {
    keep(r.key) && var rows := RowsFor(all, r.key); rows != [] && r == Pick(policy, rows)
  }

  // ----- Sorted sequences -----

  ghost predicate KeysWithin<T>(a: seq<Row<T>>, b: seq<Row<T>>) {
    forall i :: 0 <= i < |a| ==> HasKey(b, a[i].key)
  }

  lemma StrictKeyAt<T>(s: seq<Row<T>>, i: nat, j: nat)
    requires StrictlySortedBy(s, RowKey) && i < |s| && j < |s|
    requires s[i].key == s[j].key
    ensures i == j
  {
    assert i < j ==> KeyLess(RowKey(s[i]), RowKey(s[j]));
    assert j < i ==> KeyLess(RowKey(s[j]), RowKey(s[i]));
    KeyLessTotal(s[i].key, s[j].key);
  }

  /** A key stands no later in a part than in the whole. */
  lemma {:induction false} RankInPart<T>(part: seq<Row<T>>, whole: seq<Row<T>>, j: nat, r: nat)
    requires StrictlySortedBy(part, RowKey) && StrictlySortedBy(whole, RowKey) && KeysWithin(part, whole)
    requires j < |part| && r < |whole| && part[j].key == whole[r].key
    ensures j <= r
  {
    if j == 0 {
    } else {
      assert HasKey(whole, part[j - 1].key);
      var q :| 0 <= q < |whole| && whole[q].key == part[j - 1].key;
      RankInPart(part, whole, j - 1, q);
      assert KeyLess(RowKey(part[j - 1]), RowKey(part[j]));
      assert q > r ==> KeyLess(RowKey(whole[r]), RowKey(whole[q]));
      KeyLessTotal(whole[q].key, whole[r].key);
    }
  }

  ghost predicate TopIn<T>(a: seq<Row<T>>, b: seq<Row<T>>, k: nat) {
    forall r :: 0 <= r < k && r < |b| ==> b[r] in a
  }

  /** If the first `k` of `b` are in `a`, and `a` has no other keys than `b`, they are the first `k` of `a`. */
  lemma {:induction false} SameStart<T>(a: seq<Row<T>>, b: seq<Row<T>>, k: nat)
    requires StrictlySortedBy(a, RowKey) && StrictlySortedBy(b, RowKey) && KeysWithin(a, b) && TopIn(a, b, k)
    ensures Take(b, k) <= a
  {
    if k == 0 {
    } else {
      SameStart(a, b, k - 1);
      if k - 1 < |b| {
        assert b[k - 1] in a;
        SameNext(a, b, k - 1);
      }
      PrefixStep(a, b, k);
    }
  }

  lemma PrefixStep<T>(a: seq<Row<T>>, b: seq<Row<T>>, k: nat)
    requires k > 0 && Take(b, k - 1) <= a && (k - 1 < |b| ==> k - 1 < |a| && a[k - 1] == b[k - 1])
    ensures Take(b, k) <= a
  {
    if k - 1 < |b| {
      assert Take(b, k) == Take(b, k - 1) + [b[k - 1]];
    }
  }

  lemma SameNext<T>(a: seq<Row<T>>, b: seq<Row<T>>, r: nat)
    requires StrictlySortedBy(a, RowKey) && StrictlySortedBy(b, RowKey) && KeysWithin(a, b)
    requires r < |b| && b[r] in a && Take(b, r) <= a
    ensures r < |a| && a[r] == b[r]
  {
    var j :| 0 <= j < |a| && a[j] == b[r];
    RankInPart(a, b, j, r);
    if j < r {
      assert Take(b, r)[j] == b[j] == a[j];
      StrictKeyAt(b, j, r);
    }
  }

  lemma NoLonger<T>(a: seq<Row<T>>, b: seq<Row<T>>)
    requires StrictlySortedBy(a, RowKey) && StrictlySortedBy(b, RowKey) && KeysWithin(a, b)
    ensures |a| <= |b|
  {
    if a != [] {
      var j := |a| - 1;
      assert HasKey(b, a[j].key);
      var r :| 0 <= r < |b| && b[r].key == a[j].key;
      RankInPart(a, b, j, r);
    }
  }

  // ----- Pages of a merge of truncated lists -----

  function Truncated<T>(answers: seq<Option<seq<Row<T>>>>, k: nat): (r: seq<Option<seq<Row<T>>>>)
    ensures |r| == |answers|
    ensures forall i :: 0 <= i < |r| ==>
      r[i] == if answers[i].Some? then Some(Take(answers[i].value, k)) else None
  {
    seq(|answers|, i requires 0 <= i < |answers| =>
      if answers[i].Some? then Some(Take(answers[i].value, k)) else None)
  }

  /** What a member lists: each key once, in order, and only rows that pass the filter. */
  ghost predicate IsListing<T>(rows: seq<Row<T>>, keep: Key -> bool) {
    StrictlySortedBy(rows, RowKey) && forall i :: 0 <= i < |rows| ==> keep(rows[i].key)
  }

  ghost predicate AllListings<T>(answers: seq<Option<seq<Row<T>>>>, keep: Key -> bool) {
    forall i :: 0 <= i < |answers| && answers[i].Some? ==> IsListing(answers[i].value, keep)
  }

  /** The rows of a list that carry one of the first `k` keys of the union all survive truncation. */
  lemma TruncationKeepsKey<T>(rows: seq<Row<T>>, name: string, union: seq<Row<T>>, r: nat, k: nat)
    requires StrictlySortedBy(rows, RowKey) && StrictlySortedBy(union, RowKey) && KeysWithin(rows, union)
    requires r < |union| && r < k
    ensures RowsFor(Labelled(Take(rows, k), name), union[r].key) == RowsFor(Labelled(rows, name), union[r].key)
  {
    if k < |rows| {
      forall i | k <= i < |rows| ensures rows[i].key != union[r].key {
        if rows[i].key == union[r].key {
          RankInPart(rows, union, i, r);
        }
      }
      RowsForStart(rows, name, union[r].key, k);
    }
  }

  lemma RowsForStart<T>(rows: seq<Row<T>>, name: string, key: Key, k: nat)
    requires k <= |rows| && forall i :: k <= i < |rows| ==> rows[i].key != key
    ensures RowsFor(Labelled(Take(rows, k), name), key) == RowsFor(Labelled(rows, name), key)
  {
    var all := Labelled(rows, name);
    assert all == all[..k] + all[k..];
    assert Labelled(Take(rows, k), name) == all[..k];
    RowsForConcat(all[..k], all[k..], key);
    RowsForSome(all[k..], key);
  }

  lemma {:induction false} TruncatedRowsFor<T>(names: seq<string>, answers: seq<Option<seq<Row<T>>>>,
                                               union: seq<Row<T>>, r: nat, k: nat)
    requires |names| == |answers| && StrictlySortedBy(union, RowKey) && r < |union| && r < k
    requires forall i :: 0 <= i < |answers| && answers[i].Some? ==>
      StrictlySortedBy(answers[i].value, RowKey) && KeysWithin(answers[i].value, union)
    ensures RowsFor(AllRows(names, Truncated(answers, k)), union[r].key) ==
            RowsFor(AllRows(names, answers), union[r].key)
  {
    if names == [] {
    } else {
      var last, key := |names| - 1, union[r].key;
      TruncatedRowsFor(names[..last], answers[..last], union, r, k);
      assert Truncated(answers, k)[..last] == Truncated(answers[..last], k);
      if answers[last].Some? {
        TruncationKeepsKey(answers[last].value, names[last], union, r, k);
        RowsForConcat(AllRows(names[..last], answers[..last]), Labelled(answers[last].value, names[last]), key);
        RowsForConcat(AllRows(names[..last], Truncated(answers, k)[..last]),
                      Labelled(Take(answers[last].value, k), names[last]), key);
      }
    }
  }

  /** A key of some list is a key of the concatenation, and the other way round. */
  lemma {:induction false} KeysOfAll<T>(names: seq<string>, answers: seq<Option<seq<Row<T>>>>, key: Key)
    requires |names| == |answers|
    ensures HasKey(AllRows(names, answers), key) <==>
            exists i :: 0 <= i < |answers| && answers[i].Some? && HasKey(answers[i].value, key)
  {
    if names == [] {
    } else {
      var last := |names| - 1;
      KeysOfAll(names[..last], answers[..last], key);
      var before := AllRows(names[..last], answers[..last]);
      if answers[last].Some? {
        HasKeyConcat(before, Labelled(answers[last].value, names[last]), key);
        HasKeyLabelled(answers[last].value, names[last], key);
      }
      if HasKey(before, key) {
        var i :| 0 <= i < last && answers[..last][i].Some? && HasKey(answers[..last][i].value, key);
        assert answers[i].Some? && HasKey(answers[i].value, key);
      }
      if i :| 0 <= i < last && answers[i].Some? && HasKey(answers[i].value, key) {
        assert answers[..last][i].Some? && HasKey(answers[..last][i].value, key);
      }
    }
  }

  lemma HasKeyConcat<T>(a: seq<Row<T>>, b: seq<Row<T>>, key: Key)
    ensures HasKey(a + b, key) <==> HasKey(a, key) || HasKey(b, key)
  {
    RowsForConcat(a, b, key);
    RowsForSome(a, key);
    RowsForSome(b, key);
    RowsForSome(a + b, key);
  }

  lemma HasKeyLabelled<T>(rows: seq<Row<T>>, name: string, key: Key)
    ensures HasKey(Labelled(rows, name), key) <==> HasKey(rows, key)
  {
    if HasKey(rows, key) {
      var i :| 0 <= i < |rows| && rows[i].key == key;
      assert Labelled(rows, name)[i].key == key;
    }
  }

  lemma HasKeyTake<T>(rows: seq<Row<T>>, k: nat, key: Key)
    ensures HasKey(Take(rows, k), key) ==> HasKey(rows, key)
  {
  }

  /** Members' keys are keys of the merged list. */
  lemma ListedKeysMerged<T>(names: seq<string>, answers: seq<Option<seq<Row<T>>>>, policy: Policy,
                            keep: Key -> bool, s: seq<Row<T>>, i: nat)
    requires |names| == |answers| && AllListings(answers, keep) && IsMerged(s, AllRows(names, answers), policy, keep)
    requires i < |answers| && answers[i].Some?
    ensures KeysWithin(answers[i].value, s)
  {
    var all := AllRows(names, answers);
    forall j | 0 <= j < |answers[i].value| ensures HasKey(s, answers[i].value[j].key) {
      var key := answers[i].value[j].key;
      assert HasKey(answers[i].value, key);
      KeysOfAll(names, answers, key);
      var m :| 0 <= m < |all| && all[m].key == key;
      assert HasKey(s, all[m].key);
    }
  }

  /** Truncation adds no keys. */
  lemma TruncatedKeysWithin<T>(names: seq<string>, answers: seq<Option<seq<Row<T>>>>, policy: Policy,
                               keep: Key -> bool, k: nat, cut: seq<Row<T>>, full: seq<Row<T>>)
    requires |names| == |answers| && AllListings(answers, keep)
    requires IsMerged(cut, AllRows(names, Truncated(answers, k)), policy, keep)
    requires IsMerged(full, AllRows(names, answers), policy, keep)
    ensures KeysWithin(cut, full)
  {
    forall j | 0 <= j < |cut| ensures HasKey(full, cut[j].key) {
      var key := cut[j].key;
      assert IsChosen(cut[j], AllRows(names, Truncated(answers, k)), policy, keep);
      RowsForSome(AllRows(names, Truncated(answers, k)), key);
      KeysOfAll(names, Truncated(answers, k), key);
      var i :| 0 <= i < |answers| && answers[i].Some? && HasKey(Take(answers[i].value, k), key);
      HasKeyTake(answers[i].value, k, key);
      var m :| 0 <= m < |answers[i].value| && answers[i].value[m].key == key;
      ListedKeysMerged(names, answers, policy, keep, full, i);
      assert HasKey(full, answers[i].value[m].key);
    }
  }

  /**
   * Merging lists truncated to `k` rows and merging the whole lists agree on the first `k` rows,
   * for either policy, whichever members answered.
   */
  lemma TopRowsSurvive<T>(names: seq<string>, answers: seq<Option<seq<Row<T>>>>, policy: Policy,
                          keep: Key -> bool, k: nat, cut: seq<Row<T>>, full: seq<Row<T>>)
    requires |names| == |answers| && AllListings(answers, keep)
    requires IsMerged(cut, AllRows(names, Truncated(answers, k)), policy, keep)
    requires IsMerged(full, AllRows(names, answers), policy, keep)
    ensures Take(cut, k) == Take(full, k)
    ensures |cut| <= |full|
  {
    TruncatedKeysWithin(names, answers, policy, keep, k, cut, full);
    TopRowsAreIn(names, answers, policy, keep, k, cut, full);
    SameTop(cut, full, k);
  }

  lemma TopRowsAreIn<T>(names: seq<string>, answers: seq<Option<seq<Row<T>>>>, policy: Policy,
                        keep: Key -> bool, k: nat, cut: seq<Row<T>>, full: seq<Row<T>>)
    requires |names| == |answers| && AllListings(answers, keep)
    requires IsMerged(cut, AllRows(names, Truncated(answers, k)), policy, keep)
    requires IsMerged(full, AllRows(names, answers), policy, keep)
    ensures TopIn(cut, full, k)
  {
    forall r | 0 <= r < k && r < |full| ensures full[r] in cut {
      TopRowSurvives(names, answers, policy, keep, k, cut, full, r);
    }
  }

  lemma SameTop<T>(a: seq<Row<T>>, b: seq<Row<T>>, k: nat)
    requires StrictlySortedBy(a, RowKey) && StrictlySortedBy(b, RowKey) && KeysWithin(a, b) && TopIn(a, b, k)
    ensures Take(a, k) == Take(b, k) && |a| <= |b|
  {
    NoLonger(a, b);
    SameStart(a, b, k);
    if |b| <= k {
      assert Take(b, k) == b;
      assert a == b;
    } else {
      assert Take(b, k) == b[..k] == a[..k];
    }
  }

  lemma TopRowSurvives<T>(names: seq<string>, answers: seq<Option<seq<Row<T>>>>, policy: Policy,
                          keep: Key -> bool, k: nat, cut: seq<Row<T>>, full: seq<Row<T>>, r: nat)
    requires |names| == |answers| && AllListings(answers, keep)
    requires IsMerged(cut, AllRows(names, Truncated(answers, k)), policy, keep)
    requires IsMerged(full, AllRows(names, answers), policy, keep)
    requires r < k && r < |full|
    ensures full[r] in cut
  {
    forall i | 0 <= i < |answers| && answers[i].Some? ensures KeysWithin(answers[i].value, full) {
      ListedKeysMerged(names, answers, policy, keep, full, i);
    }
    TruncatedRowsFor(names, answers, full, r, k);
    TopRowIsIn(AllRows(names, Truncated(answers, k)), AllRows(names, answers), policy, keep, cut, full[r]);
  }

  lemma TopRowIsIn<T>(allCut: seq<Row<T>>, all: seq<Row<T>>, policy: Policy, keep: Key -> bool,
                      cut: seq<Row<T>>, row: Row<T>)
    requires IsMerged(cut, allCut, policy, keep) && IsChosen(row, all, policy, keep)
    requires RowsFor(allCut, row.key) == RowsFor(all, row.key)
    ensures row in cut
  {
    RowsForSome(allCut, row.key);
    var m :| 0 <= m < |allCut| && allCut[m].key == row.key;
    assert HasKey(cut, allCut[m].key);
    var j :| 0 <= j < |cut| && cut[j].key == row.key;
    assert IsChosen(cut[j], allCut, policy, keep);
  }

  // ----- The code -----

  lemma LaterRowIsNew<T>(rows: seq<Row<T>>, r: seq<Row<T>>, n: nat)
    requires DistinctKeys(rows, RowKey) && DistinctKeys(r, RowKey) && n < |rows|
    requires forall i :: 0 <= i < |r| ==> r[i] in rows[..n]
    ensures DistinctKeys(r + [rows[n]], RowKey)
  {
    forall i | 0 <= i < |r| ensures RowKey(r[i]) != RowKey(rows[n]) {
      assert r[i] in rows[..n];
      var j :| 0 <= j < |rows[..n]| && rows[..n][j] == r[i];
      assert RowKey(rows[j]) != RowKey(rows[n]);
    }
  }

  lemma {:induction false} KeptKeysDistinct<T>(rows: seq<Row<T>>, want: Row<T> -> bool)
    requires DistinctKeys(rows, RowKey)
    ensures DistinctKeys(Kept(rows, want), RowKey)
  {
    if rows == [] {
    } else {
      var last := |rows| - 1;
      var before := Kept(rows[..last], want);
      KeptKeysDistinct(rows[..last], want);
      KeptRows(rows[..last], want);
      LaterRowIsNew(rows, before, last);
    }
  }

  /** A listing: exactly the rows that pass the filter, each key once, in key order. */
  ghost predicate ListingOf<T>(listing: seq<Row<T>>, rows: seq<Row<T>>, want: Row<T> -> bool) {
    && StrictlySortedBy(listing, RowKey)
    && (forall i :: 0 <= i < |listing| ==> listing[i] in rows && want(listing[i]))
    && (forall i :: 0 <= i < |rows| && want(rows[i]) ==> rows[i] in listing)
  }

  method SortKept<T>(kept: seq<Row<T>>, ghost rows: seq<Row<T>>, ghost want: Row<T> -> bool) returns (r: seq<Row<T>>)
    requires DistinctKeys(rows, RowKey) && kept == Kept(rows, want)
    ensures ListingOf(r, rows, want) && InStrictOrder(r, RowKey)
  {
    KeptRows(rows, want);
    KeptKeysDistinct(rows, want);
    r := SortSlice(kept, RowKey);
    PermutationKeepsDistinct(kept, r, RowKey);
    SortedAndDistinctIsStrict(r, RowKey);
    StrictlySortedIsInOrder(r, RowKey);
    forall i | 0 <= i < |r| ensures r[i] in rows && want(r[i]) {
      assert r[i] in r && r[i] in kept;
    }
  }

  /** A node's list: rows that do not match are passed over, the others collected and sorted. */
  method NodeList<T>(rows: seq<Row<T>>, want: Row<T> -> bool) returns (listing: seq<Row<T>>)
    requires DistinctKeys(rows, RowKey)
    ensures ListingOf(listing, rows, want)
    ensures InStrictOrder(listing, RowKey)
  {
    var all: seq<Row<T>> := [];
    for n := 0 to |rows|
      invariant all == Kept(rows[..n], want)
    {
      assert rows[..n + 1][..n] == rows[..n];
      if want(rows[n]) {
        all := all + [rows[n]];
      }
    }
    assert rows[..|rows|] == rows;
    listing := SortKept(all, rows, want);
  }

  /** Filter and sort of the merged rows. */
  method FilterAndSort<T>(rows: seq<Row<T>>, want: Row<T> -> bool) returns (listing: seq<Row<T>>)
    requires DistinctKeys(rows, RowKey)
    ensures ListingOf(listing, rows, want)
    ensures InStrictOrder(listing, RowKey)
  {
    var merged := new Row<T>[|rows|](i requires 0 <= i < |rows| => rows[i]);
    assert merged[..] == rows;
    var n := FilterInPlace(merged, want);
    listing := SortKept(merged[..n], rows, want);
  }

  /**
   * A member's own list endpoint: the requested page of its listing. A broker holds one row per key.
   */
  method MemberList<T(!new)>(rows: seq<Row<T>>, want: Row<T> -> bool, p: PageParams)
    returns (total: nat, items: Option<seq<Row<T>>>)
    requires DistinctKeys(rows, RowKey) && |rows| + MAX_PAGE_SIZE < TWO_63 && ValidParams(p)
    ensures exists listing :: ListingOf(listing, rows, want)
    ensures forall listing :: ListingOf(listing, rows, want) ==> total == |listing| && IsPage(items, listing, p)
  {
    var all := NodeList(rows, want);
    ListingNoLonger(all, rows);
    total, items := |all|, ApplyPagination(all, p);
    PaginationCorrectIff(all, p);
    forall listing | ListingOf(listing, rows, want) ensures listing == all {
      ListingIsUnique(all, listing, rows, want);
    }
  }

  /** The page a reader expects, unless the offset overflows to a place within the list. */
  ghost predicate IsPage<T>(items: Option<seq<Row<T>>>, listing: seq<Row<T>>, p: PageParams) {
    items == Some(PageOf(listing, p)) <==> Offset(p) < TWO_63 || Wrap64(Offset(p)) >= |listing|
  }

  /** What a node has on its session page: its clients, and the stored sessions that are not connected. */
  function Sessions<T>(clients: seq<Row<T>>, stored: seq<Row<T>>): seq<Row<T>> {
    clients + Kept(stored, NotAmong(clients))
  }

  function NotAmong<T>(clients: seq<Row<T>>): Row<T> -> bool {
    (r: Row<T>) => !HasKey(clients, r.key)
  }

  /** The `online` parameter: true, false or anything else. */
  function Matching<T>(online: Option<bool>): Row<T> -> bool {
    (r: Row<T>) => online == None || r.online == online.value
  }

  lemma SessionsDistinct<T>(clients: seq<Row<T>>, stored: seq<Row<T>>)
    requires DistinctKeys(clients, RowKey) && DistinctKeys(stored, RowKey)
    ensures DistinctKeys(Sessions(clients, stored), RowKey)
  {
    var offline := NotAmong(clients);
    KeptRows(stored, offline);
    KeptKeysDistinct(stored, offline);
    var rest := Kept(stored, offline);
    forall i, j | 0 <= i < |clients| && 0 <= j < |rest| ensures RowKey(clients[i]) != RowKey(rest[j]) {
      assert offline(rest[j]);
    }
  }

  /** The first loop of a node's `listSessions`. */
  method CollectClients<T>(clients: seq<Row<T>>, online: Option<bool>) returns (all: seq<Row<T>>, connected: set<Key>)
    requires forall i :: 0 <= i < |clients| ==> clients[i].online
    ensures all == Kept(clients, Matching(online)) && forall k :: k in connected <==> HasKey(clients, k)
  {
    all, connected := [], {};
    for n := 0 to |clients|
      invariant all == Kept(clients[..n], Matching(online))
      invariant forall k :: k in connected <==> HasKey(clients[..n], k)
    {
      assert clients[..n + 1] == clients[..n] + [clients[n]];
      HasKeyAppend(clients[..n], clients[n]);
      connected := connected + {clients[n].key};
      if online != Some(false) {
        all := all + [clients[n]];
      }
    }
    assert clients[..|clients|] == clients;
  }

  /** The second loop: stored sessions, unless connected or not asked for. */
  method CollectStored<T>(all: seq<Row<T>>, stored: seq<Row<T>>, online: Option<bool>, connected: set<Key>,
                          ghost offline: Row<T> -> bool) returns (all': seq<Row<T>>)
    requires forall i :: 0 <= i < |stored| ==> !stored[i].online && offline(stored[i]) == (stored[i].key !in connected)
    ensures all' == all + Kept(Kept(stored, offline), Matching(online))
  {
    all' := all;
    if online != Some(true) {
      for n := 0 to |stored|
        invariant all' == all + Kept(Kept(stored[..n], offline), Matching(online))
      {
        assert stored[..n + 1][..n] == stored[..n];
        if stored[n].key !in connected {
          all' := all' + [stored[n]];
        }
      }
      assert stored[..|stored|] == stored;
    } else {
      KeptRows(stored, offline);
      KeptNone(Kept(stored, offline), Matching(online));
    }
  }

  /** A node's `listSessions`, up to its page. */
  method NodeSessions<T>(clients: seq<Row<T>>, stored: seq<Row<T>>, online: Option<bool>)
    returns (listing: seq<Row<T>>)
    requires DistinctKeys(clients, RowKey) && DistinctKeys(stored, RowKey)
    requires forall i :: 0 <= i < |clients| ==> clients[i].online
    requires forall i :: 0 <= i < |stored| ==> !stored[i].online
    ensures ListingOf(listing, Sessions(clients, stored), Matching(online))
    ensures InStrictOrder(listing, RowKey)
  {
    ghost var offline := NotAmong(clients);
    var all, connected := CollectClients(clients, online);
    all := CollectStored(all, stored, online, connected, offline);
    KeptConcat(clients, Kept(stored, offline), Matching(online));
    SessionsDistinct(clients, stored);
    listing := SortKept(all, Sessions(clients, stored), Matching(online));
  }

  lemma ListingWithin<T>(a: seq<Row<T>>, b: seq<Row<T>>, rows: seq<Row<T>>, want: Row<T> -> bool)
    requires ListingOf(a, rows, want) && ListingOf(b, rows, want)
    ensures KeysWithin(a, b) && TopIn(b, a, |a|)
  {
    forall i | 0 <= i < |a| ensures HasKey(b, a[i].key) && a[i] in b {
      var j :| 0 <= j < |rows| && rows[j] == a[i];
      assert rows[j] in b;
      var m :| 0 <= m < |b| && b[m] == a[i];
      assert b[m].key == a[i].key;
    }
  }

  lemma ListingIsUnique<T>(a: seq<Row<T>>, b: seq<Row<T>>, rows: seq<Row<T>>, want: Row<T> -> bool)
    requires ListingOf(a, rows, want) && ListingOf(b, rows, want)
    ensures a == b
  {
    ListingWithin(a, b, rows, want);
    ListingWithin(b, a, rows, want);
    SameTop(b, a, |a|);
    NoLonger(a, b);
  }

  lemma {:induction false} ListingNoLonger<T>(s: seq<Row<T>>, rows: seq<Row<T>>)
    requires StrictlySortedBy(s, RowKey) && forall i :: 0 <= i < |s| ==> s[i] in rows
    ensures |s| <= |rows|
  {
    if s == [] {
    } else {
      var x := s[|s| - 1];
      var j :| 0 <= j < |rows| && rows[j] == x;
      var rest := rows[..j] + rows[j + 1..];
      forall i | 0 <= i < |s| - 1 ensures s[i] in rest {
        assert KeyLess(RowKey(s[i]), RowKey(x));
        KeyLessTotal(s[i].key, s[i].key);
        var m :| 0 <= m < |rows| && rows[m] == s[i];
        assert m < j ==> rest[m] == s[i];
        assert m > j ==> rest[m - 1] == s[i];
      }
      ListingNoLonger(s[..|s| - 1], rest);
    }
  }

  /** One row per key so far, chosen by the policy, in no particular order. */
  ghost predicate IsBag<T>(bag: seq<Row<T>>, all: seq<Row<T>>, policy: Policy) {
    && DistinctKeys(bag, RowKey)
    && (forall i :: 0 <= i < |bag| ==> IsBest(bag[i], all, policy))
    && (forall j :: 0 <= j < |all| ==> HasKey(bag, all[j].key))
  }

  ghost predicate IsBest<T>(r: Row<T>, all: seq<Row<T>>, policy: Policy) {
    var rows := RowsFor(all, r.key); rows != [] && r == Pick(policy, rows)
  }

  lemma BestStep<T>(r: Row<T>, all: seq<Row<T>>, policy: Policy, x: Row<T>)
    requires IsBest(r, all, policy)
    requires x.key == r.key ==> policy.FirstWins? || !x.online || r.online
    ensures IsBest(r, all + [x], policy)
  {
    assert (all + [x])[..|all|] == all;
    var rows := RowsFor(all, r.key);
    if x.key == r.key {
      assert (rows + [x])[..|rows|] == rows;
    }
  }

  lemma BestNew<T>(all: seq<Row<T>>, policy: Policy, x: Row<T>)
    requires !HasKey(all, x.key)
    ensures IsBest(x, all + [x], policy)
  {
    RowsForSome(all, x.key);
    assert (all + [x])[..|all|] == all;
    assert RowsFor(all + [x], x.key) == [x];
  }

  /** The inner loop of the clients and subscriptions merges: rows whose key was seen are skipped. */
  method MergeItems<T>(items: seq<Row<T>>, name: string, seen: set<Key>, merged: seq<Row<T>>, ghost all: seq<Row<T>>)
    returns (seen': set<Key>, merged': seq<Row<T>>)
    requires IsBag(merged, all, FirstWins) && forall k :: k in seen <==> HasKey(merged, k)
    ensures IsBag(merged', all + Labelled(items, name), FirstWins)
    ensures forall k :: k in seen' <==> HasKey(merged', k)
  {
    seen', merged' := seen, merged;
    ghost var labelled := Labelled(items, name);
    assert all + labelled[..0] == all;
    for n := 0 to |items|
      invariant IsBag(merged', all + labelled[..n], FirstWins)
      invariant forall k :: k in seen' <==> HasKey(merged', k)
    {
      var item := items[n].(node := name);
      ghost var done := all + labelled[..n];
      assert all + labelled[..n + 1] == done + [item];
      if item.key in seen' {
        BagSkips(merged', done, item);
      } else {
        BagAdds(merged', done, item);
        HasKeyAppend(merged', item);
        seen' := seen' + {item.key};
        merged' := merged' + [item];
      }
    }
    assert labelled[..|items|] == labelled;
  }

  lemma HasKeyAppend<T>(rows: seq<Row<T>>, x: Row<T>)
    ensures forall k :: HasKey(rows + [x], k) <==> HasKey(rows, k) || k == x.key
  {
    forall k ensures HasKey(rows + [x], k) <==> HasKey(rows, k) || k == x.key {
      HasKeyConcat(rows, [x], k);
      assert [x][0].key == x.key;
    }
  }

  lemma BagSkips<T>(bag: seq<Row<T>>, all: seq<Row<T>>, x: Row<T>)
    requires IsBag(bag, all, FirstWins) && HasKey(bag, x.key)
    ensures IsBag(bag, all + [x], FirstWins)
  {
    forall i | 0 <= i < |bag| ensures IsBest(bag[i], all + [x], FirstWins) {
      BestStep(bag[i], all, FirstWins, x);
    }
  }

  lemma BagAdds<T>(bag: seq<Row<T>>, all: seq<Row<T>>, x: Row<T>)
    requires IsBag(bag, all, FirstWins) && !HasKey(bag, x.key)
    ensures IsBag(bag + [x], all + [x], FirstWins)
  {
    HasKeyAppend(bag, x);
    forall i | 0 <= i < |bag| ensures IsBest(bag[i], all + [x], FirstWins) && RowKey(bag[i]) != RowKey(x) {
      BestStep(bag[i], all, FirstWins, x);
    }
    BestNew(all, FirstWins, x);
  }

  lemma AllRowsStep<T>(names: seq<string>, answers: seq<Option<seq<Row<T>>>>, i: nat)
    requires |names| == |answers| && i < |names|
    ensures AllRows(names[..i + 1], answers[..i + 1]) ==
            var before := AllRows(names[..i], answers[..i]);
            if answers[i].Some? then before + Labelled(answers[i].value, names[i]) else before
  {
    assert names[..i + 1][..i] == names[..i] && answers[..i + 1][..i] == answers[..i];
  }

  function OnKey<T>(keep: Key -> bool): Row<T> -> bool {
    (r: Row<T>) => keep(r.key)
  }

  /** A merged bag, filtered and sorted, is the merged list. */
  lemma SortedBagIsMerged<T>(bag: seq<Row<T>>, all: seq<Row<T>>, policy: Policy, keep: Key -> bool, s: seq<Row<T>>)
    requires IsBag(bag, all, policy) && ListingOf(s, bag, OnKey(keep))
    ensures IsMerged(s, all, policy, keep)
  {
    forall i | 0 <= i < |s| ensures IsChosen(s[i], all, policy, keep) {
      assert s[i] in bag && OnKey(keep)(s[i]);
      var j :| 0 <= j < |bag| && bag[j] == s[i];
      assert IsBest(bag[j], all, policy);
    }
    forall j | 0 <= j < |all| && keep(all[j].key) ensures HasKey(s, all[j].key) {
      assert HasKey(bag, all[j].key);
      var i :| 0 <= i < |bag| && bag[i].key == all[j].key;
      assert OnKey(keep)(bag[i]) && bag[i] in s;
    }
  }

  /** The envelope that `paginate` writes for the merged list. */
  ghost predicate IsResponse<T(!new)>(total: nat, items: Option<seq<Row<T>>>, all: seq<Row<T>>, policy: Policy,
                                      keep: Key -> bool, p: PageParams) {
    exists list :: IsMerged(list, all, policy, keep) && total == |list| && items == ApplyPagination(list, p)
  }

  /** The merge, filter and sort of `listClients` and `listSubscriptions`. */
  method MergeAll<T>(names: seq<string>, answers: seq<Option<seq<Row<T>>>>, keep: Key -> bool)
    returns (list: seq<Row<T>>)
    requires |names| == |answers|
    ensures IsMerged(list, AllRows(names, answers), FirstWins, keep)
    ensures InStrictOrder(list, RowKey)
  {
    var seen: set<Key>, merged: seq<Row<T>> := {}, [];
    for i := 0 to |names|
      invariant IsBag(merged, AllRows(names[..i], answers[..i]), FirstWins)
      invariant forall k :: k in seen <==> HasKey(merged, k)
    {
      AllRowsStep(names, answers, i);
      if answers[i].Some? {
        seen, merged := MergeItems(answers[i].value, names[i], seen, merged, AllRows(names[..i], answers[..i]));
      }
    }
    assert names[..|names|] == names && answers[..|names|] == answers;
    list := FilterAndSort(merged, OnKey(keep));
    SortedBagIsMerged(merged, AllRows(names, answers), FirstWins, keep, list);
  }

  /** `listClients` and `listSubscriptions` of the cluster. */
  method ClusterList<T(!new)>(names: seq<string>, answers: seq<Option<seq<Row<T>>>>, keep: Key -> bool, p: PageParams)
    returns (total: nat, items: Option<seq<Row<T>>>)
    requires |names| == |answers|
    ensures IsResponse(total, items, AllRows(names, answers), FirstWins, keep, p)
  {
    var list := MergeAll(names, answers, keep);
    total, items := |list|, ApplyPagination(list, p);
  }

  // ----- Sessions -----

  /** The sessions page filters at the members only. */
  predicate Everything(key: Key) {
    true
  }

  ghost predicate IsBestMap<T>(byId: map<Key, Row<T>>, all: seq<Row<T>>) {
    && (forall k :: k in byId ==> byId[k].key == k && IsBest(byId[k], all, OnlineWins))
    && (forall j :: 0 <= j < |all| ==> all[j].key in byId)
  }

  function Upserted<T>(byId: map<Key, Row<T>>, item: Row<T>): map<Key, Row<T>> {
    if item.key !in byId || (item.online && !byId[item.key].online) then byId[item.key := item] else byId
  }

  lemma UpsertedIsBest<T>(byId: map<Key, Row<T>>, all: seq<Row<T>>, x: Row<T>)
    requires IsBestMap(byId, all)
    ensures IsBestMap(Upserted(byId, x), all + [x])
  {
    var after := Upserted(byId, x);
    forall k | k in after ensures after[k].key == k && IsBest(after[k], all + [x], OnlineWins) {
      if k !in byId {
        BestNew(all, OnlineWins, x);
      } else if k == x.key && x.online && !byId[k].online {
        BestReplaced(byId[k], all, x);
      } else {
        BestStep(byId[k], all, OnlineWins, x);
      }
    }
  }

  lemma BestReplaced<T>(r: Row<T>, all: seq<Row<T>>, x: Row<T>)
    requires IsBest(r, all, OnlineWins) && x.key == r.key && x.online && !r.online
    ensures IsBest(x, all + [x], OnlineWins)
  {
    assert (all + [x])[..|all|] == all;
    var rows := RowsFor(all, r.key);
    assert (rows + [x])[..|rows|] == rows;
  }

  method MergeSessionItems<T>(items: seq<Row<T>>, name: string, byId: map<Key, Row<T>>, ghost all: seq<Row<T>>)
    returns (byId': map<Key, Row<T>>)
    requires IsBestMap(byId, all)
    ensures IsBestMap(byId', all + Labelled(items, name))
  {
    byId' := byId;
    ghost var labelled := Labelled(items, name);
    assert all + labelled[..0] == all;
    for n := 0 to |items|
      invariant IsBestMap(byId', all + labelled[..n])
    {
      var item := items[n].(node := name);
      assert all + labelled[..n + 1] == (all + labelled[..n]) + [item];
      UpsertedIsBest(byId', all + labelled[..n], item);
      if item.key !in byId' || (item.online && !byId'[item.key].online) {
        byId' := byId'[item.key := item];
      }
    }
    assert labelled[..|items|] == labelled;
  }

  /** `for _, v := range byID`: the values, in any order. */
  method MapValues<T>(byId: map<Key, Row<T>>) returns (rows: seq<Row<T>>)
    requires forall k :: k in byId ==> byId[k].key == k
    ensures DistinctKeys(rows, RowKey)
    ensures forall i :: 0 <= i < |rows| ==> rows[i].key in byId && rows[i] == byId[rows[i].key]
    ensures forall k :: k in byId ==> HasKey(rows, k)
  {
    rows := [];
    var todo := byId.Keys;
    while todo != {}
      invariant todo <= byId.Keys && DistinctKeys(rows, RowKey)
      invariant forall i :: 0 <= i < |rows| ==> rows[i].key in byId.Keys - todo && rows[i] == byId[rows[i].key]
      invariant forall k :: k in byId.Keys - todo ==> HasKey(rows, k)
      decreases |todo|
    {
      var k :| k in todo;
      HasKeyAppend(rows, byId[k]);
      rows, todo := rows + [byId[k]], todo - {k};
    }
  }

  /** The merge and sort of the cluster's `listSessions`. */
  method MergeAllSessions<T>(names: seq<string>, answers: seq<Option<seq<Row<T>>>>) returns (list: seq<Row<T>>)
    requires |names| == |answers|
    ensures IsMerged(list, AllRows(names, answers), OnlineWins, Everything)
    ensures InStrictOrder(list, RowKey)
  {
    var byId: map<Key, Row<T>> := map[];
    for i := 0 to |names|
      invariant IsBestMap(byId, AllRows(names[..i], answers[..i]))
    {
      AllRowsStep(names, answers, i);
      if answers[i].Some? {
        byId := MergeSessionItems(answers[i].value, names[i], byId, AllRows(names[..i], answers[..i]));
      }
    }
    assert names[..|names|] == names && answers[..|names|] == answers;
    var merged := MapValues(byId);
    assert IsBag(merged, AllRows(names, answers), OnlineWins);
    list := SortMerged(merged);
    SortedBagIsMerged(merged, AllRows(names, answers), OnlineWins, Everything, list);
  }

  method SortMerged<T>(merged: seq<Row<T>>) returns (list: seq<Row<T>>)
    requires DistinctKeys(merged, RowKey)
    ensures ListingOf(list, merged, OnKey(Everything)) && InStrictOrder(list, RowKey)
  {
    ghost var want := OnKey<T>(Everything);
    forall i | 0 <= i < |merged| ensures want(merged[i]) {
      assert Everything(merged[i].key);
    }
    KeptAll(merged, want);
    list := SortKept(merged, merged, want);
  }

  /** `listSessions` of the cluster: an online row is preferred to the offline rows of the same client. */
  method ClusterSessions<T(!new)>(names: seq<string>, answers: seq<Option<seq<Row<T>>>>, p: PageParams)
    returns (total: nat, items: Option<seq<Row<T>>>)
    requires |names| == |answers|
    ensures IsResponse(total, items, AllRows(names, answers), OnlineWins, Everything, p)
  {
    var list := MergeAllSessions(names, answers);
    total, items := |list|, ApplyPagination(list, p);
  }

  /** Each client id that arrived is listed once, with its first online row if any, else its first row. */
  lemma SessionRow<T>(all: seq<Row<T>>, list: seq<Row<T>>, j: nat) returns (i: nat, m: nat)
    requires IsMerged(list, all, OnlineWins, Everything) && j < |all|
    ensures i < |list| && list[i].key == all[j].key
    ensures forall n :: 0 <= n < |list| && list[n].key == all[j].key ==> n == i
    ensures var rows := RowsFor(all, all[j].key);
            && m < |rows| && list[i] == rows[m]
            && (rows[m].online ==> forall n :: 0 <= n < m ==> !rows[n].online)
            && (!rows[m].online ==> m == 0 && forall n :: 0 <= n < |rows| ==> !rows[n].online)
  {
    assert HasKey(list, all[j].key);
    i :| 0 <= i < |list| && list[i].key == all[j].key;
    forall n | 0 <= n < |list| && list[n].key == all[j].key ensures n == i {
      StrictKeyAt(list, n, i);
    }
    assert IsChosen(list[i], all, OnlineWins, Everything);
    m := PickIsFirst(OnlineWins, RowsFor(all, all[j].key));
  }

  // ----- The merged list is determined -----

  lemma SameKeysMerged<T>(a: seq<Row<T>>, b: seq<Row<T>>, all: seq<Row<T>>, policy: Policy, keep: Key -> bool)
    requires IsMerged(a, all, policy, keep) && IsMerged(b, all, policy, keep)
    ensures KeysWithin(a, b) && TopIn(b, a, |a|)
  {
    forall i | 0 <= i < |a| ensures HasKey(b, a[i].key) && a[i] in b {
      assert IsChosen(a[i], all, policy, keep);
      RowsForSome(all, a[i].key);
      var m :| 0 <= m < |all| && all[m].key == a[i].key;
      assert HasKey(b, all[m].key);
      var j :| 0 <= j < |b| && b[j].key == a[i].key;
      assert IsChosen(b[j], all, policy, keep);
    }
  }

  /** The rows that arrived, the policy and the filter determine the merged list. */
  lemma MergedIsUnique<T>(a: seq<Row<T>>, b: seq<Row<T>>, all: seq<Row<T>>, policy: Policy, keep: Key -> bool)
    requires IsMerged(a, all, policy, keep) && IsMerged(b, all, policy, keep)
    ensures a == b
  {
    SameKeysMerged(a, b, all, policy, keep);
    SameKeysMerged(b, a, all, policy, keep);
    SameTop(b, a, |a|);
    NoLonger(a, b);
  }
}
