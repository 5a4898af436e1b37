/** Pages of the cluster's lists: when a page built from cut-off answers is the page of everything. */
module ClusterPages {
  import opened Ordering
  import opened Pagination
  import opened Results
  import opened ClusterLists
  import opened Slices

  lemma PageOfTop<T>(s: seq<T>, k: nat, offset: nat, size: nat)
    requires offset + size <= k
    ensures Take(Drop(s, offset), size) == Take(Drop(Take(s, k), offset), size)
  {
  }

  /**
   * Although every member sends 500 rows at most, a page within the first 500 rows is the page of
   * the merge of the whole lists.
   */
  lemma PagesWithinLimitAreExact<T>(names: seq<string>, answers: seq<Option<seq<Row<T>>>>, policy: Policy,
                                    keep: Key -> bool, p: PageParams, cut: seq<Row<T>>, full: seq<Row<T>>)
    requires |names| == |answers| && AllListings(answers, keep)
    requires IsMerged(cut, AllRows(names, Truncated(answers, MAX_PAGE_SIZE)), policy, keep)
    requires IsMerged(full, AllRows(names, answers), policy, keep)
    requires ValidParams(p) && Offset(p) + p.size <= MAX_PAGE_SIZE
    ensures PageOf(cut, p) == PageOf(full, p)
    ensures |full| + MAX_PAGE_SIZE < TWO_63 ==> ApplyPagination(cut, p) == Some(PageOf(full, p))
  {
    TopRowsSurvive(names, answers, policy, keep, MAX_PAGE_SIZE, cut, full);
    OffsetIsNat(p.page - 1, p.size);
    PageOfTop(cut, MAX_PAGE_SIZE, Offset(p), p.size);
    PageOfTop(full, MAX_PAGE_SIZE, Offset(p), p.size);
    if |full| + MAX_PAGE_SIZE < TWO_63 {
      PaginationCorrectIff(cut, p);
    }
  }

  // ----- The limit is tight -----

  lemma CutIsShort<T>(name: string, rows: seq<Row<T>>, policy: Policy, keep: Key -> bool, k: nat, cut: seq<Row<T>>)
    requires IsListing(rows, keep)
    requires IsMerged(cut, AllRows([name], Truncated([Some(rows)], k)), policy, keep)
    ensures |cut| <= k
  {
    var answers := Truncated([Some(rows)], k);
    forall j | 0 <= j < |cut| ensures HasKey(Take(rows, k), cut[j].key) {
      assert IsChosen(cut[j], AllRows([name], answers), policy, keep);
      RowsForSome(AllRows([name], answers), cut[j].key);
      KeysOfAll([name], answers, cut[j].key);
    }
    NoLonger(cut, Take(rows, k));
  }

  lemma PageLength<T>(s: seq<T>, offset: nat, size: nat)
    ensures |Take(Drop(s, offset), size)| ==
            if |s| <= offset then 0 else if |s| - offset < size then |s| - offset else size
  {
  }

  /** One member with the rows of a page that reaches beyond what it sends already spoils that page. */
  lemma RowsBeyondLimitAreLost<T>(name: string, rows: seq<Row<T>>, policy: Policy, keep: Key -> bool, k: nat,
                                  p: PageParams, cut: seq<Row<T>>, full: seq<Row<T>>)
    requires IsListing(rows, keep) && ValidParams(p) && k < Offset(p) + p.size <= |rows|
    requires IsMerged(cut, AllRows([name], Truncated([Some(rows)], k)), policy, keep)
    requires IsMerged(full, AllRows([name], [Some(rows)]), policy, keep)
    ensures PageOf(cut, p) != PageOf(full, p)
  {
    CutIsShort(name, rows, policy, keep, k, cut);
    ListedKeysMerged([name], [Some(rows)], policy, keep, full, 0);
    NoLonger(rows, full);
    OffsetIsNat(p.page - 1, p.size);
    PageLength(cut, Offset(p), p.size);
    PageLength(full, Offset(p), p.size);
  }

  /** The answers of some members give the same page, cut off or not. */
  ghost predicate ExactFor(names: seq<string>, answers: seq<Option<seq<Row<int>>>>, policy: Policy, p: PageParams,
                           cut: seq<Row<int>>, full: seq<Row<int>>)
  {
    && |names| == |answers| && AllListings(answers, Everything)
    && IsMerged(cut, AllRows(names, Truncated(answers, MAX_PAGE_SIZE)), policy, Everything)
    && IsMerged(full, AllRows(names, answers), policy, Everything)
    ==> PageOf(cut, p) == PageOf(full, p)
  }

  ghost predicate AlwaysExact(policy: Policy, p: PageParams) {
    forall names, answers, cut, full :: ExactFor(names, answers, policy, p, cut, full)
  }

  /** In every cluster the page is exact, exactly when it lies within the first 500 rows. */
  lemma PageExactIff(policy: Policy, p: PageParams)
    requires ValidParams(p)
    ensures AlwaysExact(policy, p) <==> Offset(p) + p.size <= MAX_PAGE_SIZE
  {
    if Offset(p) + p.size <= MAX_PAGE_SIZE {
      forall names, answers, cut, full ensures ExactFor(names, answers, policy, p, cut, full) {
        WithinIsExact(names, answers, policy, p, cut, full);
      }
    } else {
      var rows := LongListing(Offset(p) + p.size);
      var full, cut := Labelled(rows, ""), Labelled(Take(rows, MAX_PAGE_SIZE), "");
      ListingMergesToItself("", rows, policy);
      ListingMergesToItself("", Take(rows, MAX_PAGE_SIZE), policy);
      assert Truncated([Some(rows)], MAX_PAGE_SIZE) == [Some(Take(rows, MAX_PAGE_SIZE))];
      RowsBeyondLimitAreLost("", rows, policy, Everything, MAX_PAGE_SIZE, p, cut, full);
      assert !ExactFor([""], [Some(rows)], policy, p, cut, full);
    }
  }

  lemma WithinIsExact(names: seq<string>, answers: seq<Option<seq<Row<int>>>>, policy: Policy, p: PageParams,
                      cut: seq<Row<int>>, full: seq<Row<int>>)
    requires ValidParams(p) && Offset(p) + p.size <= MAX_PAGE_SIZE
    ensures ExactFor(names, answers, policy, p, cut, full)
  {
    if && |names| == |answers| && AllListings(answers, Everything)
       && IsMerged(cut, AllRows(names, Truncated(answers, MAX_PAGE_SIZE)), policy, Everything)
       && IsMerged(full, AllRows(names, answers), policy, Everything)
    {
      PagesWithinLimitAreExact(names, answers, policy, Everything, p, cut, full);
    }
  }

  function Name(n: nat): string {
    if n == 0 then "" else "a" + Name(n - 1)
  }

  lemma {:induction false} NamesGrow(m: nat, n: nat)
    requires m < n
    ensures StringLess(Name(m), Name(n))
  {
    if m == 0 {
    } else {
      NamesGrow(m - 1, n - 1);
      assert Name(m)[1..] == Name(m - 1) && Name(n)[1..] == Name(n - 1);
    }
  }

  /** A listing of any length. */
  lemma LongListing(n: nat) returns (rows: seq<Row<int>>)
    ensures |rows| == n && IsListing(rows, Everything)
  {
    rows := seq(n, i requires 0 <= i < n => Row([Name(i)], "", true, 0));
    forall i, j | 0 <= i < j < n ensures KeyLess(RowKey(rows[i]), RowKey(rows[j])) {
      NamesGrow(i, j);
    }
  }

  lemma AllRowsOfOne<T>(name: string, rows: seq<Row<T>>)
    ensures AllRows([name], [Some(rows)]) == Labelled(rows, name)
  {
    assert AllRows([name][..0], [Some(rows)][..0]) == [];
  }

  lemma LabelledIsStrict<T>(name: string, rows: seq<Row<T>>)
    requires StrictlySortedBy(rows, RowKey)
    ensures StrictlySortedBy(Labelled(rows, name), RowKey)
  {
    forall i, j | 0 <= i < j < |rows| ensures KeyLess(rows[i].key, rows[j].key) {
      assert KeyLess(RowKey(rows[i]), RowKey(rows[j]));
    }
  }

  lemma StrictMergesToItself<T>(s: seq<Row<T>>, policy: Policy)
    requires StrictlySortedBy(s, RowKey)
    ensures IsMerged(s, s, policy, Everything)
  {
    forall i | 0 <= i < |s| ensures IsChosen(s[i], s, policy, Everything) {
      assert Everything(s[i].key);
      OnlyRowFor(s, i);
    }
  }

  lemma ListingMergesToItself<T>(name: string, rows: seq<Row<T>>, policy: Policy)
    requires IsListing(rows, Everything)
    ensures IsMerged(Labelled(rows, name), AllRows([name], [Some(rows)]), policy, Everything)
  {
    AllRowsOfOne(name, rows);
    LabelledIsStrict(name, rows);
    StrictMergesToItself(Labelled(rows, name), policy);
  }

  lemma {:induction false} OnlyRowFor<T>(s: seq<Row<T>>, i: nat)
    requires StrictlySortedBy(s, RowKey) && i < |s|
    ensures RowsFor(s, s[i].key) == [s[i]]
  {
    var last := |s| - 1;
    if i < last {
      OnlyRowFor(s[..last], i);
      if s[last].key == s[i].key {
        StrictKeyAt(s, i, last);
      }
    } else {
      RowsForSome(s[..last], s[last].key);
      if HasKey(s[..last], s[last].key) {
        var j :| 0 <= j < last && s[..last][j].key == s[last].key;
        StrictKeyAt(s, j, last);
      }
    }
  }

  // ----- The total -----

  /** Every row that some member does not send is sent by another, under the same key. */
  ghost predicate NothingLost<T>(answers: seq<Option<seq<Row<T>>>>, k: nat) {
    forall i, j :: 0 <= i < |answers| && answers[i].Some? && 0 <= j < |answers[i].value| ==>
      Sent(answers, k, answers[i].value[j].key)
  }

  ghost predicate Sent<T>(answers: seq<Option<seq<Row<T>>>>, k: nat, key: Key) {
    exists i :: 0 <= i < |answers| && answers[i].Some? && HasKey(Take(answers[i].value, k), key)
  }

  lemma SentIsMerged<T>(names: seq<string>, answers: seq<Option<seq<Row<T>>>>, policy: Policy, keep: Key -> bool,
                        k: nat, cut: seq<Row<T>>, key: Key)
    requires |names| == |answers| && AllListings(answers, keep) && keep(key)
    requires IsMerged(cut, AllRows(names, Truncated(answers, k)), policy, keep)
    ensures HasKey(cut, key) <==> Sent(answers, k, key)
  {
    var sent := Truncated(answers, k);
    var all := AllRows(names, sent);
    KeysOfAll(names, sent, key);
    if Sent(answers, k, key) {
      var i :| 0 <= i < |answers| && answers[i].Some? && HasKey(Take(answers[i].value, k), key);
      assert sent[i].Some? && HasKey(sent[i].value, key);
      var m :| 0 <= m < |all| && all[m].key == key;
      assert HasKey(cut, all[m].key);
    }
    if HasKey(cut, key) {
      var j :| 0 <= j < |cut| && cut[j].key == key;
      assert IsChosen(cut[j], all, policy, keep);
      RowsForSome(all, key);
      var i :| 0 <= i < |sent| && sent[i].Some? && HasKey(sent[i].value, key);
      assert HasKey(Take(answers[i].value, k), key);
    }
  }

  /** Sorted lists of one length, one with no other keys than the other, have the same keys. */
  lemma SameKeys<T>(a: seq<Row<T>>, b: seq<Row<T>>, r: nat)
    requires StrictlySortedBy(a, RowKey) && StrictlySortedBy(b, RowKey) && KeysWithin(a, b) && |a| == |b| && r < |b|
    ensures a[r].key == b[r].key
  {
    assert HasKey(b, a[r].key);
    var q :| 0 <= q < |b| && b[q].key == a[r].key;
    RankInPart(a, b, r, q);
    LaterKeysWithin(a, b, r, q);
    NoLonger(a[r..], b[q..]);
  }

  lemma LaterKeysWithin<T>(a: seq<Row<T>>, b: seq<Row<T>>, r: nat, q: nat)
    requires StrictlySortedBy(a, RowKey) && StrictlySortedBy(b, RowKey) && KeysWithin(a, b)
    requires r < |a| && q < |b| && a[r].key == b[q].key
    ensures KeysWithin(a[r..], b[q..])
  {
    forall i | 0 <= i < |a[r..]| ensures HasKey(b[q..], a[r..][i].key) {
      assert HasKey(b, a[r + i].key);
      var m :| 0 <= m < |b| && b[m].key == a[r + i].key;
      assert i > 0 ==> KeyLess(RowKey(a[r]), RowKey(a[r + i]));
      assert m < q ==> KeyLess(RowKey(b[m]), RowKey(b[q]));
      KeyLessTotal(a[r].key, a[r + i].key);
      assert m >= q;
      assert b[q..][m - q].key == a[r..][i].key;
    }
  }

  /** The total is that of the whole lists exactly when no row is lost for good. */
  lemma TotalExactIff<T>(names: seq<string>, answers: seq<Option<seq<Row<T>>>>, policy: Policy, keep: Key -> bool,
                         k: nat, cut: seq<Row<T>>, full: seq<Row<T>>)
    requires |names| == |answers| && AllListings(answers, keep)
    requires IsMerged(cut, AllRows(names, Truncated(answers, k)), policy, keep)
    requires IsMerged(full, AllRows(names, answers), policy, keep)
    ensures |cut| == |full| <==> NothingLost(answers, k)
  {
    TruncatedKeysWithin(names, answers, policy, keep, k, cut, full);
    if NothingLost(answers, k) {
      NothingLostKeys(names, answers, policy, keep, k, cut, full);
      NoLonger(full, cut);
      NoLonger(cut, full);
    }
    if |cut| == |full| {
      forall i, j | 0 <= i < |answers| && answers[i].Some? && 0 <= j < |answers[i].value|
        ensures Sent(answers, k, answers[i].value[j].key)
      {
        var key := answers[i].value[j].key;
        ListedKeysMerged(names, answers, policy, keep, full, i);
        assert HasKey(full, key);
        var r :| 0 <= r < |full| && full[r].key == key;
        SameKeys(cut, full, r);
        assert HasKey(cut, key);
        SentIsMerged(names, answers, policy, keep, k, cut, key);
      }
    }
  }

  lemma NothingLostKeys<T>(names: seq<string>, answers: seq<Option<seq<Row<T>>>>, policy: Policy, keep: Key -> bool,
                           k: nat, cut: seq<Row<T>>, full: seq<Row<T>>)
    requires |names| == |answers| && AllListings(answers, keep) && NothingLost(answers, k)
    requires IsMerged(cut, AllRows(names, Truncated(answers, k)), policy, keep)
    requires IsMerged(full, AllRows(names, answers), policy, keep)
    ensures KeysWithin(full, cut)
  {
    forall r | 0 <= r < |full| ensures HasKey(cut, full[r].key) {
      var key := full[r].key;
      assert IsChosen(full[r], AllRows(names, answers), policy, keep);
      RowsForSome(AllRows(names, answers), key);
      KeysOfAll(names, answers, key);
      var i :| 0 <= i < |answers| && answers[i].Some? && HasKey(answers[i].value, key);
      var j :| 0 <= j < |answers[i].value| && answers[i].value[j].key == key;
      assert Sent(answers, k, answers[i].value[j].key);
      SentIsMerged(names, answers, policy, keep, k, cut, key);
    }
  }

  // ----- The total, from the sizes alone -----

  lemma SmallMembersLoseNothing<T>(answers: seq<Option<seq<Row<T>>>>, k: nat)
    requires forall i :: 0 <= i < |answers| && answers[i].Some? ==> |answers[i].value| <= k
    ensures NothingLost(answers, k)
  {
    forall i, j | 0 <= i < |answers| && answers[i].Some? && 0 <= j < |answers[i].value|
      ensures Sent(answers, k, answers[i].value[j].key)
    {
      assert Take(answers[i].value, k) == answers[i].value;
      assert HasKey(Take(answers[i].value, k), answers[i].value[j].key);
    }
  }

  /** The listing of member `j` in a cluster whose members have no key in common. */
  function OwnRows(j: nat, n: nat): (rows: seq<Row<int>>)
    ensures |rows| == n && forall r :: 0 <= r < n ==> rows[r] == Row([Name(j), Name(r)], "", true, 0)
  {
    seq(n, r requires 0 <= r < n => Row([Name(j), Name(r)], "", true, 0))
  }

  function Apart(sizes: seq<nat>): (answers: seq<Option<seq<Row<int>>>>)
    ensures |answers| == |sizes| && forall j :: 0 <= j < |sizes| ==> answers[j] == Some(OwnRows(j, sizes[j]))
  {
    seq(|sizes|, j requires 0 <= j < |sizes| => Some(OwnRows(j, sizes[j])))
  }

  function Unnamed(n: nat): (names: seq<string>)
    ensures |names| == n
  {
    seq(n, _ => "")
  }

  function Total(sizes: seq<nat>): nat {
    if sizes == [] then 0 else Total(sizes[..|sizes| - 1]) + sizes[|sizes| - 1]
  }

  function Capped(sizes: seq<nat>, k: nat): (r: seq<nat>)
    ensures |r| == |sizes| && forall i :: 0 <= i < |r| ==> r[i] == if sizes[i] > k then k else sizes[i]
  {
    seq(|sizes|, i requires 0 <= i < |sizes| => if sizes[i] > k then k else sizes[i])
  }

  lemma {:induction false} CappedTotal(sizes: seq<nat>, k: nat)
    ensures Total(Capped(sizes, k)) <= Total(sizes)
    ensures (exists i :: 0 <= i < |sizes| && sizes[i] > k) ==> Total(Capped(sizes, k)) < Total(sizes)
  {
    if sizes == [] {
    } else {
      var last := |sizes| - 1;
      CappedTotal(sizes[..last], k);
      assert Capped(sizes, k)[..last] == Capped(sizes[..last], k);
      if i :| 0 <= i < last && sizes[i] > k {
        assert sizes[..last][i] > k;
      }
    }
  }

  lemma TruncatedApart(sizes: seq<nat>, k: nat)
    ensures Truncated(Apart(sizes), k) == Apart(Capped(sizes, k))
  {
    forall j | 0 <= j < |sizes| ensures Truncated(Apart(sizes), k)[j] == Apart(Capped(sizes, k))[j] {
      assert Take(OwnRows(j, sizes[j]), k) == OwnRows(j, Capped(sizes, k)[j]);
    }
  }

  lemma OwnRowsAreStrict(j: nat, n: nat)
    ensures StrictlySortedBy(OwnRows(j, n), RowKey)
  {
    forall q, r | 0 <= q < r < n ensures KeyLess(RowKey(OwnRows(j, n)[q]), RowKey(OwnRows(j, n)[r])) {
      NamesGrow(q, r);
      assert [Name(j), Name(q)][1..] == [Name(q)] && [Name(j), Name(r)][1..] == [Name(r)];
    }
  }

  ghost predicate FirstPartBelow(rows: seq<Row<int>>, n: nat) {
    forall i :: 0 <= i < |rows| ==> rows[i].key != [] && StringLess(rows[i].key[0], Name(n))
  }

  lemma StrictConcat(a: seq<Row<int>>, b: seq<Row<int>>, n: nat)
    requires StrictlySortedBy(a, RowKey) && StrictlySortedBy(b, RowKey) && FirstPartBelow(a, n)
    requires forall i :: 0 <= i < |b| ==> b[i].key != [] && b[i].key[0] == Name(n)
    ensures StrictlySortedBy(a + b, RowKey) && FirstPartBelow(a + b, n + 1)
  {
    forall i, j | 0 <= i < |a| && 0 <= j < |b| ensures KeyLess(RowKey(a[i]), RowKey(b[j])) {
      assert StringLess(a[i].key[0], b[j].key[0]);
    }
    NamesGrow(n, n + 1);
    forall i | 0 <= i < |a| ensures StringLess(a[i].key[0], Name(n + 1)) {
      StringLessTransitive(a[i].key[0], Name(n), Name(n + 1));
    }
  }

  /** With no key in common, all rows together are the merged list. */
  lemma {:induction false} ApartIsStrict(sizes: seq<nat>)
    ensures var all := AllRows(Unnamed(|sizes|), Apart(sizes));
            StrictlySortedBy(all, RowKey) && FirstPartBelow(all, |sizes|) && |all| == Total(sizes)
  {
    if sizes == [] {
    } else {
      var last := |sizes| - 1;
      ApartIsStrict(sizes[..last]);
      assert Unnamed(|sizes|)[..last] == Unnamed(last) && Apart(sizes)[..last] == Apart(sizes[..last]);
      OwnRowsAreStrict(last, sizes[last]);
      LabelledIsStrict("", OwnRows(last, sizes[last]));
      StrictConcat(AllRows(Unnamed(last), Apart(sizes[..last])), Labelled(OwnRows(last, sizes[last]), ""), last);
    }
  }

  /** Members of these sizes give the same total, cut off or not. */
  ghost predicate TotalFor(names: seq<string>, answers: seq<Option<seq<Row<int>>>>, sizes: seq<nat>, policy: Policy,
                           cut: seq<Row<int>>, full: seq<Row<int>>)
  {
    && |names| == |answers| == |sizes| && AllListings(answers, Everything)
    && (forall i :: 0 <= i < |sizes| && answers[i].Some? ==> |answers[i].value| == sizes[i])
    && IsMerged(cut, AllRows(names, Truncated(answers, MAX_PAGE_SIZE)), policy, Everything)
    && IsMerged(full, AllRows(names, answers), policy, Everything)
    ==> |cut| == |full|
  }

  ghost predicate AlwaysTotal(sizes: seq<nat>, policy: Policy) {
    forall names, answers, cut, full :: TotalFor(names, answers, sizes, policy, cut, full)
  }

  lemma ApartIsShort(sizes: seq<nat>, policy: Policy, i: nat) returns (cut: seq<Row<int>>, full: seq<Row<int>>)
    requires i < |sizes| && sizes[i] > MAX_PAGE_SIZE
    ensures !TotalFor(Unnamed(|sizes|), Apart(sizes), sizes, policy, cut, full)
  {
    full := AllRows(Unnamed(|sizes|), Apart(sizes));
    cut := AllRows(Unnamed(|sizes|), Apart(Capped(sizes, MAX_PAGE_SIZE)));
    ApartIsStrict(sizes);
    ApartIsStrict(Capped(sizes, MAX_PAGE_SIZE));
    StrictMergesToItself(full, policy);
    StrictMergesToItself(cut, policy);
    TruncatedApart(sizes, MAX_PAGE_SIZE);
    CappedTotal(sizes, MAX_PAGE_SIZE);
    ApartAreListings(sizes);
  }

  lemma ApartAreListings(sizes: seq<nat>)
    ensures AllListings(Apart(sizes), Everything)
  {
    forall j | 0 <= j < |sizes| ensures IsListing(OwnRows(j, sizes[j]), Everything) {
      OwnRowsAreStrict(j, sizes[j]);
    }
  }

  /** The total is right in every cluster of these sizes exactly when no member has more than 500 rows. */
  lemma TotalExactForSizesIff(sizes: seq<nat>, policy: Policy)
    ensures AlwaysTotal(sizes, policy) <==> forall i :: 0 <= i < |sizes| ==> sizes[i] <= MAX_PAGE_SIZE
  {
    if i :| 0 <= i < |sizes| && sizes[i] > MAX_PAGE_SIZE {
      var cut, full := ApartIsShort(sizes, policy, i);
    } else {
      forall names, answers, cut, full ensures TotalFor(names, answers, sizes, policy, cut, full) {
        SmallIsTotal(names, answers, sizes, policy, cut, full);
      }
    }
  }

  lemma SmallIsTotal(names: seq<string>, answers: seq<Option<seq<Row<int>>>>, sizes: seq<nat>, policy: Policy,
                     cut: seq<Row<int>>, full: seq<Row<int>>)
    requires forall i :: 0 <= i < |sizes| ==> sizes[i] <= MAX_PAGE_SIZE
    ensures TotalFor(names, answers, sizes, policy, cut, full)
  {
    if && |names| == |answers| == |sizes| && AllListings(answers, Everything)
       && (forall i :: 0 <= i < |sizes| && answers[i].Some? ==> |answers[i].value| == sizes[i])
       && IsMerged(cut, AllRows(names, Truncated(answers, MAX_PAGE_SIZE)), policy, Everything)
       && IsMerged(full, AllRows(names, answers), policy, Everything)
    {
      SmallMembersLoseNothing(answers, MAX_PAGE_SIZE);
      TotalExactIff(names, answers, policy, Everything, MAX_PAGE_SIZE, cut, full);
    }
  }

  // ----- Members and cluster together -----

  /** What the answering members have to list. */
  ghost predicate AllHeld<T>(held: seq<Option<seq<Row<T>>>>, members: seq<seq<Row<T>>>, up: seq<bool>,
                             want: Row<T> -> bool)
    requires |up| == |members|
  {
    && |held| == |members|
    && forall i :: 0 <= i < |members| ==>
         if up[i] then held[i].Some? && ListingOf(held[i].value, members[i], want) else held[i] == None
  }

  /** The merge of all that the answering members hold, nothing cut off. */
  ghost predicate IsWhole<T(!new)>(whole: seq<Row<T>>, names: seq<string>, members: seq<seq<Row<T>>>, up: seq<bool>,
                                   policy: Policy, want: Row<T> -> bool, keep: Key -> bool)
    requires |names| == |members| == |up|
  {
    exists held :: AllHeld(held, members, up, want) && IsMerged(whole, AllRows(names, held), policy, keep)
  }

  ghost predicate DistinctMembers<T>(members: seq<seq<Row<T>>>) {
    forall i :: 0 <= i < |members| ==> DistinctKeys(members[i], RowKey) && |members[i]| + MAX_PAGE_SIZE < TWO_63
  }

  method AskMember<T(!new)>(rows: seq<Row<T>>, want: Row<T> -> bool)
    returns (items: Option<seq<Row<T>>>, listing: seq<Row<T>>)
    requires DistinctKeys(rows, RowKey) && |rows| + MAX_PAGE_SIZE < TWO_63
    ensures ListingOf(listing, rows, want) && items == Some(Take(listing, MAX_PAGE_SIZE))
  {
    var total;
    total, items := MemberList(rows, want, ParsePage(1, MAX_PAGE_SIZE));
    listing := NodeList(rows, want);
    assert IsPage(items, listing, PageParams(1, MAX_PAGE_SIZE));
  }

  /** What the members hold, and what `fetchM` brings back of it from those that answer. */
  method AskMembers<T(!new)>(members: seq<seq<Row<T>>>, up: seq<bool>, want: Row<T> -> bool)
    returns (sent: seq<Option<seq<Row<T>>>>, held: seq<Option<seq<Row<T>>>>)
    requires DistinctMembers(members) && |up| == |members|
    ensures AllHeld(held, members, up, want) && sent == Truncated(held, MAX_PAGE_SIZE)
  {
    sent, held := [], [];
    for i := 0 to |members|
      invariant |sent| == |held| == i
      invariant forall j :: 0 <= j < i ==>
        if up[j] then held[j].Some? && ListingOf(held[j].value, members[j], want) else held[j] == None
      invariant sent == Truncated(held, MAX_PAGE_SIZE)
    {
      if up[i] {
        var items, listing := AskMember(members[i], want);
        sent, held := sent + [items], held + [Some(listing)];
      } else {
        sent, held := sent + [None], held + [None];
      }
    }
  }

  lemma HeldAreListings<T>(held: seq<Option<seq<Row<T>>>>, members: seq<seq<Row<T>>>, up: seq<bool>,
                           want: Row<T> -> bool, keep: Key -> bool)
    requires |up| == |members| && AllHeld(held, members, up, want)
    requires forall r :: want(r) ==> keep(r.key)
    ensures AllListings(held, keep)
  {
  }

  lemma ResponseIsExact<T(!new)>(names: seq<string>, held: seq<Option<seq<Row<T>>>>, policy: Policy, keep: Key -> bool,
                                 p: PageParams, total: nat, items: Option<seq<Row<T>>>, whole: seq<Row<T>>)
    requires |names| == |held| && AllListings(held, keep)
    requires IsResponse(total, items, AllRows(names, Truncated(held, MAX_PAGE_SIZE)), policy, keep, p)
    requires IsMerged(whole, AllRows(names, held), policy, keep)
    requires ValidParams(p) && Offset(p) + p.size <= MAX_PAGE_SIZE && |whole| + MAX_PAGE_SIZE < TWO_63
    ensures items == Some(PageOf(whole, p))
    ensures total == |whole| <==> NothingLost(held, MAX_PAGE_SIZE)
  {
    var cut :| IsMerged(cut, AllRows(names, Truncated(held, MAX_PAGE_SIZE)), policy, keep) &&
               total == |cut| && items == ApplyPagination(cut, p);
    PagesWithinLimitAreExact(names, held, policy, keep, p, cut, whole);
    TotalExactIff(names, held, policy, keep, MAX_PAGE_SIZE, cut, whole);
  }

  /**
   * The whole system: every answering member sends its first 500 rows, the cluster endpoint merges
   * them, and a page within the first 500 rows is the page of everything those members hold. The
   * cluster's own filter passes what the members' filter does: the same for clients, none for subscriptions.
   */
  method ClusterPage<T(!new)>(names: seq<string>, members: seq<seq<Row<T>>>, up: seq<bool>, want: Row<T> -> bool,
                              keep: Key -> bool, p: PageParams)
    returns (page: Option<seq<Row<T>>>, whole: seq<Row<T>>)
    requires |names| == |members| == |up| && DistinctMembers(members)
    requires forall r :: want(r) ==> keep(r.key)
    requires ValidParams(p) && Offset(p) + p.size <= MAX_PAGE_SIZE
    ensures IsWhole(whole, names, members, up, FirstWins, want, keep)
    ensures |whole| + MAX_PAGE_SIZE < TWO_63 ==> page == Some(PageOf(whole, p))
  {
    var sent, held := AskMembers(members, up, want);
    HeldAreListings(held, members, up, want, keep);
    var total, items := ClusterList(names, sent, keep, p);
    page := items;
    whole := MergeAll(names, held, keep);
    if |whole| + MAX_PAGE_SIZE < TWO_63 {
      ResponseIsExact(names, held, FirstWins, keep, p, total, items, whole);
    }
  }
}
