/** What a topic tree says: JSON value, paths, counts, and why a sorted tree is determined by them. */
module TopicTree {
  import opened Ordering

  /** The segments from the root down to a node. */
  type Path = seq<string>

  /** The JSON value of a `topicNode`. */
  datatype Tree = Tree(topic: string, subscribers: int, children: seq<Tree>)

  /** `strings.Split(s, "/")`: always at least one segment, possibly empty. */
  function Split(s: string): (p: Path)
    ensures IsSplit(p)
  {
    if s == [] then [""]
    else
      var rest := Split(s[1..]);
      if s[0] == '/' then [""] + rest else [[s[0]] + rest[0]] + rest[1..]
  }

  predicate IsSplit(p: Path) {
    p != [] && forall i :: 0 <= i < |p| ==> '/' !in p[i]
  }

  /** `strings.Join(p, "/")`. */
  function Join(p: Path): string {
    if p == [] then "" else if |p| == 1 then p[0] else p[0] + "/" + Join(p[1..])
  }

  lemma {:induction false} JoinSplit(s: string)
    ensures Join(Split(s)) == s
  {
    if s == [] {
    } else {
      JoinSplit(s[1..]);
      var rest := Split(s[1..]);
      var p := Split(s);
      if s[0] == '/' {
        assert p[1..] == rest;
      } else if |rest| > 1 {
        assert p[1..] == rest[1..];
        assert Join(p) == [s[0]] + (rest[0] + "/" + Join(rest[1..]));
      }
      assert s == [s[0]] + s[1..];
    }
  }

  lemma {:induction false} SplitJoin(p: Path)
    requires IsSplit(p)
    ensures Split(Join(p)) == p
    decreases |p|, |p[0]|
  {
    if p[0] != "" {
      var q := [p[0][1..]] + p[1..];
      SplitJoin(q);
      assert q[1..] == p[1..];
      assert Join(p) == [p[0][0]] + Join(q);
      assert Join(p)[1..] == Join(q);
      assert p[0] == [p[0][0]] + p[0][1..];
    } else if |p| > 1 {
      SplitJoin(p[1..]);
      assert Join(p) == ['/'] + Join(p[1..]);
      assert Join(p)[1..] == Join(p[1..]);
    }
  }

  /** Splitting loses nothing: a path is the split of at most one filter. */
  lemma SplitIsJoinInverse(f: string, p: Path)
    ensures Split(f) == p <==> IsSplit(p) && Join(p) == f
  {
    JoinSplit(f);
    if IsSplit(p) {
      SplitJoin(p);
    }
  }

  predicate HasPath(t: Tree, p: Path)
    decreases |p|
  {
    p == [] || ForestHas(t.children, p)
  }

  predicate ForestHas(ts: seq<Tree>, p: Path)
    requires p != []
    decreases |p|, 0
  {
    exists i :: 0 <= i < |ts| && ts[i].topic == p[0] && HasPath(ts[i], p[1..])
  }

  /** The sum of the counts of every node reached by a path: a peer's answer may repeat siblings. */
  function PathCount(t: Tree, p: Path): int
    decreases |p|, 1, 0
  {
    if p == [] then t.subscribers else ForestCount(t.children, p)
  }

  function ForestCount(ts: seq<Tree>, p: Path): int
    requires p != []
    decreases |p|, 0, |ts|
  {
    if ts == [] then 0
    else
      var last := |ts| - 1;
      ForestCount(ts[..last], p) + (if ts[last].topic == p[0] then PathCount(ts[last], p[1..]) else 0)
  }

  predicate StrictSiblings(ts: seq<Tree>) {
    forall i, j :: 0 <= i < j < |ts| ==> StringLess(ts[i].topic, ts[j].topic)
  }

  /** Every node's children are strictly increasing by topic. */
  predicate SortedTree(t: Tree) {
    StrictSiblings(t.children) && forall c :: c in t.children ==> SortedTree(c)
  }

  /** The same in terms of the first different byte. */
  ghost predicate Alphabetical(t: Tree) {
    && (forall i, j :: 0 <= i < j < |t.children| ==> Before(t.children[i].topic, t.children[j].topic))
    && forall c :: c in t.children ==> Alphabetical(c)
  }

  lemma {:induction false} SortedIsAlphabetical(t: Tree)
    ensures SortedTree(t) <==> Alphabetical(t)
  {
    forall c | c in t.children ensures SortedTree(c) <==> Alphabetical(c) {
      SortedIsAlphabetical(c);
    }
    forall i, j | 0 <= i < j < |t.children|
      ensures StringLess(t.children[i].topic, t.children[j].topic) <==> Before(t.children[i].topic, t.children[j].topic)
    {
      StringLessIsBefore(t.children[i].topic, t.children[j].topic);
    }
  }

  predicate DistinctSiblings(ts: seq<Tree>) {
    forall i, j :: 0 <= i < j < |ts| ==> ts[i].topic != ts[j].topic
  }

  lemma StrictIsDistinct(ts: seq<Tree>)
    requires StrictSiblings(ts)
    ensures DistinctSiblings(ts)
  {
    forall i, j | 0 <= i < j < |ts| ensures ts[i].topic != ts[j].topic {
      StringLessTotal(ts[i].topic, ts[i].topic);
    }
  }

  /** Below distinct siblings, a path is answered by the one child that carries its first segment. */
  lemma {:induction false} DescendDistinct(ts: seq<Tree>, i: nat, q: Path)
    requires DistinctSiblings(ts) && i < |ts|
    ensures ForestHas(ts, [ts[i].topic] + q) <==> HasPath(ts[i], q)
    ensures ForestCount(ts, [ts[i].topic] + q) == PathCount(ts[i], q)
  {
    var p := [ts[i].topic] + q;
    assert p[1..] == q;
    var last := |ts| - 1;
    if i == last {
      ForestCountAbsent(ts[..last], p);
    } else {
      assert ts[..last][i] == ts[i];
      DescendDistinct(ts[..last], i, q);
    }
  }

  lemma {:induction false} ForestCountAbsent(ts: seq<Tree>, p: Path)
    requires p != []
    ensures (forall k :: 0 <= k < |ts| ==> ts[k].topic != p[0]) ==> ForestCount(ts, p) == 0
  {
    if ts == [] {
    } else {
      ForestCountAbsent(ts[..|ts| - 1], p);
    }
  }

  lemma {:induction false} AbsentPathCountsZero(t: Tree, p: Path)
    ensures !HasPath(t, p) ==> PathCount(t, p) == 0
    decreases |p|, 1, 0
  {
    if p == [] {
    } else {
      AbsentInForest(t.children, p);
    }
  }

  lemma {:induction false} AbsentInForest(ts: seq<Tree>, p: Path)
    requires p != []
    ensures !ForestHas(ts, p) ==> ForestCount(ts, p) == 0
    decreases |p|, 0, |ts|
  {
    if ts != [] && !ForestHas(ts, p) {
      var last := |ts| - 1;
      assert !ForestHas(ts[..last], p);
      AbsentInForest(ts[..last], p);
      AbsentPathCountsZero(ts[last], p[1..]);
    }
  }

  ghost predicate SameAnswers(a: Tree, b: Tree) {
    && (forall p :: HasPath(a, p) <==> HasPath(b, p))
    && (forall p :: PathCount(a, p) == PathCount(b, p))
  }

  /** A sorted tree is determined by its paths and their counts. */
  lemma {:induction false} SortedTreeUnique(a: Tree, b: Tree)
    requires a.topic == b.topic
    requires SortedTree(a) && SortedTree(b)
    requires SameAnswers(a, b)
    ensures a == b
    decreases a
  {
    assert PathCount(a, []) == PathCount(b, []);
    SameTopics(a, b);
    forall i | 0 <= i < |a.children| ensures a.children[i] == b.children[i] {
      SameAnswersBelow(a, b, i);
      SortedTreeUnique(a.children[i], b.children[i]);
    }
    assert a.children == b.children;
  }

  lemma SameAnswersBelow(a: Tree, b: Tree, i: nat)
    requires SortedTree(a) && SortedTree(b)
    requires SameAnswers(a, b)
    requires i < |a.children| && i < |b.children| && a.children[i].topic == b.children[i].topic
    ensures SameAnswers(a.children[i], b.children[i])
  {
    var x := a.children[i].topic;
    StrictIsDistinct(a.children);
    StrictIsDistinct(b.children);
    forall q: Path
      ensures HasPath(a.children[i], q) <==> HasPath(b.children[i], q)
      ensures PathCount(a.children[i], q) == PathCount(b.children[i], q)
    {
      DescendDistinct(a.children, i, q);
      DescendDistinct(b.children, i, q);
      assert HasPath(a, [x] + q) <==> HasPath(b, [x] + q);
      assert PathCount(a, [x] + q) == PathCount(b, [x] + q);
    }
  }

  ghost predicate TopicIn(ts: seq<Tree>, x: string) {
    exists i :: 0 <= i < |ts| && ts[i].topic == x
  }

  lemma PathOfOne(t: Tree, x: string)
    ensures HasPath(t, [x]) <==> TopicIn(t.children, x)
  {
    assert [x][1..] == [];
    if TopicIn(t.children, x) {
      var i :| 0 <= i < |t.children| && t.children[i].topic == x;
      assert HasPath(t.children[i], [x][1..]);
    }
  }

  lemma SameTopics(a: Tree, b: Tree)
    requires SortedTree(a) && SortedTree(b)
    requires SameAnswers(a, b)
    ensures |a.children| == |b.children|
    ensures forall i :: 0 <= i < |a.children| ==> a.children[i].topic == b.children[i].topic
  {
    forall x ensures TopicIn(a.children, x) <==> TopicIn(b.children, x) {
      PathOfOne(a, x);
      PathOfOne(b, x);
      assert HasPath(a, [x]) <==> HasPath(b, [x]);
    }
    SameSortedTopics(a.children, b.children);
  }

  /** Strictly sorted sequences over the same set of topics agree position by position. */
  lemma {:induction false} SameSortedTopics(xs: seq<Tree>, ys: seq<Tree>)
    requires StrictSiblings(xs) && StrictSiblings(ys)
    requires forall x :: TopicIn(xs, x) <==> TopicIn(ys, x)
    ensures |xs| == |ys|
    ensures forall i :: 0 <= i < |xs| ==> xs[i].topic == ys[i].topic
  {
    if ys == [] {
    } else {
      assert TopicIn(ys, ys[0].topic);
    }
    if xs == [] {
    } else {
      assert TopicIn(xs, xs[0].topic);
      FirstTopics(xs, ys);
      FirstTopics(ys, xs);
      StringLessTotal(xs[0].topic, ys[0].topic);
      forall x ensures TopicIn(xs[1..], x) <==> TopicIn(ys[1..], x) {
        TopicInTail(xs, x);
        TopicInTail(ys, x);
      }
      SameSortedTopics(xs[1..], ys[1..]);
    }
  }

  lemma FirstTopics(xs: seq<Tree>, ys: seq<Tree>)
    requires StrictSiblings(ys) && xs != [] && ys != []
    requires TopicIn(ys, xs[0].topic)
    ensures !StringLess(xs[0].topic, ys[0].topic)
  {
    var i :| 0 <= i < |ys| && ys[i].topic == xs[0].topic;
    StringLessTotal(ys[0].topic, ys[i].topic);
  }

  lemma TopicInTail(xs: seq<Tree>, x: string)
    requires StrictSiblings(xs) && xs != []
    ensures TopicIn(xs[1..], x) <==> TopicIn(xs, x) && x != xs[0].topic
  {
    if TopicIn(xs[1..], x) {
      var i :| 0 <= i < |xs[1..]| && xs[1..][i].topic == x;
      assert xs[i + 1].topic == x;
      StringLessTotal(xs[0].topic, x);
    }
    if TopicIn(xs, x) && x != xs[0].topic {
      var i :| 0 <= i < |xs| && xs[i].topic == x;
      assert xs[1..][i - 1].topic == x;
    }
  }

  // ----- What the two endpoints promise -----

  /** A path leads to a node exactly when it starts some subscribed filter. */
  ghost predicate StartsSomeFilter(filters: multiset<string>, p: Path) {
    p == [] || exists f :: f in filters && p <= Split(f)
  }

  /** How many subscriptions have exactly the filter spelled by a path. */
  ghost function FilterCount(filters: multiset<string>, p: Path): nat {
    if IsSplit(p) then filters[Join(p)] else 0
  }

  /** The tree of one node is the sorted index of its subscriptions. */
  ghost predicate IsTopicTree(t: Tree, filters: multiset<string>) {
    && t.topic == "" && Alphabetical(t)
    && (forall p :: HasPath(t, p) <==> StartsSomeFilter(filters, p))
    && (forall p :: PathCount(t, p) == FilterCount(filters, p))
  }

  function SumCounts(ts: seq<Tree>, p: Path): int {
    if ts == [] then 0 else SumCounts(ts[..|ts| - 1], p) + PathCount(ts[|ts| - 1], p)
  }

  ghost predicate SomeHas(ts: seq<Tree>, p: Path) {
    exists i :: 0 <= i < |ts| && HasPath(ts[i], p)
  }

  /** The cluster tree has every peer's paths, and sums their counts. */
  ghost predicate IsMergeOf(t: Tree, peers: seq<Tree>) {
    && t.topic == "" && Alphabetical(t)
    && (forall p :: HasPath(t, p) <==> p == [] || SomeHas(peers, p))
    && (forall p :: PathCount(t, p) == SumCounts(peers, p))
  }

  ghost function Pool(fs: seq<multiset<string>>): multiset<string> {
    if fs == [] then multiset{} else Pool(fs[..|fs| - 1]) + fs[|fs| - 1]
  }

  lemma {:induction false} PoolMembers(fs: seq<multiset<string>>, f: string)
    ensures f in Pool(fs) <==> exists i :: 0 <= i < |fs| && f in fs[i]
  {
    if fs == [] {
    } else {
      var last := |fs| - 1;
      PoolMembers(fs[..last], f);
      assert forall i :: 0 <= i < last ==> fs[..last][i] == fs[i];
      if f in Pool(fs[..last]) {
        var i :| 0 <= i < |fs[..last]| && f in fs[..last][i];
        assert f in fs[i];
      }
    }
  }

  lemma {:induction false} PoolCounts(peers: seq<Tree>, fs: seq<multiset<string>>, p: Path)
    requires |peers| == |fs|
    requires forall i :: 0 <= i < |fs| ==> IsTopicTree(peers[i], fs[i])
    ensures SumCounts(peers, p) == FilterCount(Pool(fs), p)
  {
    if fs == [] {
    } else {
      PoolCounts(peers[..|fs| - 1], fs[..|fs| - 1], p);
    }
  }

  /** The cluster's tree is the tree a single node would show for all subscriptions pooled together. */
  lemma ClusterViewIsPooledView(peers: seq<Tree>, fs: seq<multiset<string>>, merged: Tree, pooled: Tree)
    requires |peers| == |fs|
    requires forall i :: 0 <= i < |fs| ==> IsTopicTree(peers[i], fs[i])
    requires IsMergeOf(merged, peers)
    requires IsTopicTree(pooled, Pool(fs))
    ensures merged == pooled
  {
    forall p: Path
      ensures HasPath(merged, p) <==> HasPath(pooled, p)
      ensures PathCount(merged, p) == PathCount(pooled, p)
    {
      PoolCounts(peers, fs, p);
      if p != [] {
        if SomeHas(peers, p) {
          var i :| 0 <= i < |peers| && HasPath(peers[i], p);
          assert StartsSomeFilter(fs[i], p);
          var f :| f in fs[i] && p <= Split(f);
          PoolMembers(fs, f);
        }
        if StartsSomeFilter(Pool(fs), p) {
          var f :| f in Pool(fs) && p <= Split(f);
          PoolMembers(fs, f);
          var i :| 0 <= i < |fs| && f in fs[i];
          assert StartsSomeFilter(fs[i], p);
          assert HasPath(peers[i], p);
        }
      }
    }
    SortedIsAlphabetical(merged);
    SortedIsAlphabetical(pooled);
    SortedTreeUnique(merged, pooled);
  }

  lemma {:induction false} SumOfSplit(a: seq<Tree>, b: seq<Tree>, p: Path)
    ensures SumCounts(a + b, p) == SumCounts(a, p) + SumCounts(b, p)
  {
    if b == [] {
      assert a + b == a;
    } else {
      var last := |b| - 1;
      SumOfSplit(a, b[..last], p);
      assert (a + b)[..|a + b| - 1] == a + b[..last];
    }
  }

  lemma {:induction false} SumIgnoresOrder(a: seq<Tree>, b: seq<Tree>, p: Path)
    requires multiset(a) == multiset(b)
    ensures SumCounts(a, p) == SumCounts(b, p)
  {
    if b == [] {
    } else {
      assert b[0] in multiset(b);
    }
    if a == [] {
    } else {
      var last := |a| - 1;
      var x := a[last];
      assert a == a[..last] + [x];
      assert x in multiset(b);
      var k :| 0 <= k < |b| && b[k] == x;
      assert b == b[..k] + ([x] + b[k + 1..]);
      var rest := b[..k] + b[k + 1..];
      assert multiset(b) == multiset(rest) + multiset{x};
      assert multiset(a[..last]) == multiset(a) - multiset{x};
      SumIgnoresOrder(a[..last], rest, p);
      SumOfSplit(b[..k], [x] + b[k + 1..], p);
      SumOfSplit([x], b[k + 1..], p);
      SumOfSplit(b[..k], b[k + 1..], p);
    }
  }

  /** The cluster's tree does not depend on the order in which the peers are listed. */
  lemma PeerOrderIrrelevant(peers: seq<Tree>, others: seq<Tree>, t: Tree, u: Tree)
    requires multiset(peers) == multiset(others)
    requires IsMergeOf(t, peers) && IsMergeOf(u, others)
    ensures t == u
  {
    forall p: Path
      ensures HasPath(t, p) <==> HasPath(u, p)
      ensures PathCount(t, p) == PathCount(u, p)
    {
      SumIgnoresOrder(peers, others, p);
      SomeHasIgnoresOrder(peers, others, p);
      SomeHasIgnoresOrder(others, peers, p);
    }
    SortedIsAlphabetical(t);
    SortedIsAlphabetical(u);
    SortedTreeUnique(t, u);
  }

  lemma SomeHasIgnoresOrder(a: seq<Tree>, b: seq<Tree>, p: Path)
    requires multiset(a) == multiset(b)
    ensures SomeHas(a, p) ==> SomeHas(b, p)
  {
    if SomeHas(a, p) {
      var i :| 0 <= i < |a| && HasPath(a[i], p);
      assert a[i] in multiset(b);
      var k :| 0 <= k < |b| && b[k] == a[i];
    }
  }

  // ----- The index the tries keep: path to count, with an entry for every node -----

  type CountMap = map<Path, int>

  function CountAt(m: CountMap, p: Path): int {
    if p in m then m[p] else 0
  }

  function Touch(m: CountMap, p: Path): CountMap {
    if p in m then m else m[p := 0]
  }

  function Bumped(m: CountMap, p: Path, k: int): CountMap
    requires p in m
  {
    m[p := m[p] + k]
  }

  function TouchPrefixes(m: CountMap, p: Path): (m': CountMap)
    ensures p in m' || p == []
  {
    if p == [] then m else Touch(TouchPrefixes(m, p[..|p| - 1]), p)
  }

  function Inserted(m: CountMap, p: Path): CountMap
    requires p != []
  {
    Bumped(TouchPrefixes(m, p), p, 1)
  }

  function Merged(m: CountMap, p: Path, t: Tree): CountMap
    requires p in m
    decreases t, 1, 0
  {
    MergedForest(Bumped(m, p, t.subscribers), p, t.children)
  }

  function MergedForest(m: CountMap, p: Path, ts: seq<Tree>): CountMap
    decreases ts, 0, |ts|
  {
    if ts == [] then m
    else
      var last := |ts| - 1;
      var q := p + [ts[last].topic];
      Merged(Touch(MergedForest(m, p, ts[..last]), q), q, ts[last])
  }

  lemma MergedForestStep(m: CountMap, p: Path, ts: seq<Tree>, i: nat)
    requires i < |ts|
    ensures var q := p + [ts[i].topic];
            MergedForest(m, p, ts[..i + 1]) == Merged(Touch(MergedForest(m, p, ts[..i]), q), q, ts[i])
  {
    assert ts[..i + 1][..i] == ts[..i];
  }

  lemma TouchPrefixesStep(m: CountMap, p: Path, k: nat)
    requires k < |p|
    ensures p[..k + 1] == p[..k] + [p[k]]
    ensures TouchPrefixes(m, p[..k + 1]) == Touch(TouchPrefixes(m, p[..k]), p[..k] + [p[k]])
  {
    assert p[..k + 1][..k] == p[..k];
  }

  /** A node's JSON value answers every path from its children's values. */
  lemma NodeAnswers(t: Tree, m: CountMap, p: Path, q: Path)
    requires DistinctSiblings(t.children)
    requires p in m && m[p] == t.subscribers
    requires forall j, u :: 0 <= j < |t.children| ==>
      (HasPath(t.children[j], u) <==> (p + [t.children[j].topic]) + u in m)
    requires forall j, u :: 0 <= j < |t.children| ==>
      PathCount(t.children[j], u) == CountAt(m, (p + [t.children[j].topic]) + u)
    requires q != [] && p + q in m ==> TopicIn(t.children, q[0])
    ensures HasPath(t, q) <==> p + q in m
    ensures PathCount(t, q) == CountAt(m, p + q)
  {
    if q == [] {
      assert p + q == p;
    } else if TopicIn(t.children, q[0]) {
      var j :| 0 <= j < |t.children| && t.children[j].topic == q[0];
      assert q == [q[0]] + q[1..];
      assert p + q == (p + [q[0]]) + q[1..];
      DescendDistinct(t.children, j, q[1..]);
    } else {
      ForestCountAbsent(t.children, q);
    }
  }

  // ----- What inserting and merging do to the index -----

  /** The index holds exactly the prefixes of the filters, with the number of times each filter occurs. */
  ghost predicate Indexes(m: CountMap, filters: multiset<string>) {
    && (forall p :: p in m <==> StartsSomeFilter(filters, p))
    && (forall p :: p in m ==> m[p] == FilterCount(filters, p))
  }

  lemma {:induction false} TouchPrefixesDomain(m: CountMap, p: Path)
    requires [] in m
    ensures forall r :: r in TouchPrefixes(m, p) <==> r in m || r <= p
    ensures forall r :: CountAt(TouchPrefixes(m, p), r) == CountAt(m, r)
  {
    if p == [] {
    } else {
      var u := p[..|p| - 1];
      TouchPrefixesDomain(m, u);
      forall r ensures r in TouchPrefixes(m, p) <==> r in m || r <= p {
        assert r <= p <==> r <= u || r == p;
      }
    }
  }

  lemma InsertedIndexes(m: CountMap, filters: multiset<string>, f: string)
    requires Indexes(m, filters)
    ensures Indexes(Inserted(m, Split(f)), filters + multiset{f})
  {
    var p, filters' := Split(f), filters + multiset{f};
    var m' := Inserted(m, p);
    assert StartsSomeFilter(filters, []);
    TouchPrefixesDomain(m, p);
    forall r ensures r in m' <==> StartsSomeFilter(filters', r) {
      assert f in filters';
      if r != [] && StartsSomeFilter(filters, r) {
        var g :| g in filters && r <= Split(g);
        assert g in filters';
      }
      if r != [] && StartsSomeFilter(filters', r) {
        var g :| g in filters' && r <= Split(g);
        assert g == f || g in filters;
      }
    }
    forall r | r in m' ensures m'[r] == FilterCount(filters', r) {
      SplitIsJoinInverse(f, r);
      AbsentFilterCountsZero(filters, r);
      assert m'[r] == CountAt(m, r) + (if r == p then 1 else 0);
      assert CountAt(m, r) == FilterCount(filters, r);
    }
  }

  lemma AbsentFilterCountsZero(filters: multiset<string>, p: Path)
    ensures !StartsSomeFilter(filters, p) ==> FilterCount(filters, p) == 0
  {
    if IsSplit(p) && Join(p) in filters {
      SplitJoin(p);
      assert p <= Split(Join(p));
    }
  }

  /** What merging the siblings `ts` below `p` adds at `r`. */
  ghost function Gain(ts: seq<Tree>, p: Path, r: Path): int {
    if p < r then ForestCount(ts, r[|p|..]) else 0
  }

  ghost predicate Reach(ts: seq<Tree>, p: Path, r: Path) {
    p < r && ForestHas(ts, r[|p|..])
  }

  lemma GainStep(ts: seq<Tree>, p: Path, r: Path)
    requires ts != []
    ensures var last := |ts| - 1; var q := p + [ts[last].topic];
            Gain(ts, p, r) == Gain(ts[..last], p, r) + (if q <= r then PathCount(ts[last], r[|q|..]) else 0)
  {
    if p < r {
      assert r[|p|..][1..] == r[|p| + 1..];
    }
  }

  lemma ReachStep(ts: seq<Tree>, p: Path, r: Path)
    requires ts != []
    ensures var last := |ts| - 1; var q := p + [ts[last].topic];
            Reach(ts, p, r) <==> Reach(ts[..last], p, r) || (q <= r && HasPath(ts[last], r[|q|..]))
  {
    if p < r {
      var u, last := r[|p|..], |ts| - 1;
      assert u[1..] == r[|p| + 1..];
      if ForestHas(ts[..last], u) {
        var k :| 0 <= k < last && ts[..last][k].topic == u[0] && HasPath(ts[..last][k], u[1..]);
        assert ts[k] == ts[..last][k];
      }
      if ForestHas(ts, u) {
        var k :| 0 <= k <= last && ts[k].topic == u[0] && HasPath(ts[k], u[1..]);
        assert k < last ==> ts[..last][k] == ts[k];
      }
    }
  }

  /** `mergeTopic` is pointwise addition below `p`, also when siblings of the source repeat a topic. */
  lemma {:induction false} MergedPointwise(m: CountMap, p: Path, t: Tree, r: Path)
    requires p in m
    ensures r in Merged(m, p, t) <==> r in m || (p <= r && HasPath(t, r[|p|..]))
    ensures CountAt(Merged(m, p, t), r) == CountAt(m, r) + (if p <= r then PathCount(t, r[|p|..]) else 0)
    decreases t, 1, 0
  {
    MergedForestPointwise(Bumped(m, p, t.subscribers), p, t.children, r);
    if p <= r {
      assert r == p <==> r[|p|..] == [];
    }
  }

  lemma {:induction false} MergedForestPointwise(m: CountMap, p: Path, ts: seq<Tree>, r: Path)
    ensures r in MergedForest(m, p, ts) <==> r in m || Reach(ts, p, r)
    ensures CountAt(MergedForest(m, p, ts), r) == CountAt(m, r) + Gain(ts, p, r)
    decreases ts, 0, |ts|
  {
    if ts == [] {
    } else {
      var last := |ts| - 1;
      var q := p + [ts[last].topic];
      MergedForestPointwise(m, p, ts[..last], r);
      MergedPointwise(Touch(MergedForest(m, p, ts[..last]), q), q, ts[last], r);
      GainStep(ts, p, r);
      ReachStep(ts, p, r);
    }
  }

  /** The index holds every peer's paths and the sum of their counts. */
  ghost predicate Sums(m: CountMap, peers: seq<Tree>) {
    && (forall p :: p in m <==> p == [] || SomeHas(peers, p))
    && (forall p :: CountAt(m, p) == SumCounts(peers, p))
  }

  lemma MergedSums(m: CountMap, peers: seq<Tree>, t: Tree)
    requires Sums(m, peers)
    requires [] in m
    ensures Sums(Merged(m, [], t), peers + [t])
  {
    var peers' := peers + [t];
    forall p
      ensures p in Merged(m, [], t) <==> p == [] || SomeHas(peers', p)
      ensures CountAt(Merged(m, [], t), p) == SumCounts(peers', p)
    {
      MergedPointwise(m, [], t, p);
      assert p[0..] == p;
      assert peers'[..|peers|] == peers;
      if SomeHas(peers, p) {
        var i :| 0 <= i < |peers| && HasPath(peers[i], p);
        assert peers'[i] == peers[i];
      }
      if HasPath(t, p) {
        assert peers'[|peers|] == t;
      }
      if SomeHas(peers', p) {
        var i :| 0 <= i < |peers'| && HasPath(peers'[i], p);
        assert i < |peers| ==> peers[i] == peers'[i];
      }
    }
  }
}
