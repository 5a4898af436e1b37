/** The pointer tries behind the two topic-tree endpoints. */
module TopicNodes {
  import opened Ordering
  import opened Results
  import opened TopicTree

  class TopicNode {
    const topic: string
    var subscribers: int
    var children: seq<TopicNode>

    constructor (topic: string)
      ensures this.topic == topic && subscribers == 0 && children == []
    {
      this.topic := topic;
      subscribers, children := 0, [];
    }
  }

  function TopicKey(n: TopicNode): Key {
    [n.topic]
  }

  /** Which node sits at which path; `nodes` owns them all. */
  datatype Index = Index(at: map<Path, TopicNode>, nodes: set<TopicNode>) {
    ghost predicate Owned() {
      forall p :: p in at ==> at[p] in nodes
    }
  }

  type Links = map<Path, seq<TopicNode>>

  ghost function Kids(ix: Index): Links
    requires ix.Owned()
    reads ix.nodes
  {
    map p | p in ix.at :: ix.at[p].children
  }

  ghost function Counts(ix: Index): CountMap
    requires ix.Owned()
    reads ix.nodes
  {
    map p | p in ix.at :: ix.at[p].subscribers
  }

  ghost function Parent(p: Path): Path
    requires p != []
  {
    p[..|p| - 1]
  }

  ghost predicate SameNode(at: map<Path, TopicNode>, p: Path, q: Path)
    requires p in at && q in at
  {
    at[p] == at[q]
  }

  /** The node at `p` is a child of the node at the parent path. */
  ghost predicate Attached(at: map<Path, TopicNode>, kids: Links, p: Path)
    requires at.Keys == kids.Keys && p in at && p != []
  {
    Parent(p) in at && at[p] in kids[Parent(p)]
  }

  /** A child of the node at `p` sits one segment further, under its own topic. */
  ghost predicate Placed(at: map<Path, TopicNode>, p: Path, c: TopicNode) {
    p + [c.topic] in at && at[p + [c.topic]] == c
  }

  /** One node per path, each the child of the node at its parent's path, siblings distinct. */
  ghost predicate Linked(at: map<Path, TopicNode>, kids: Links)
    requires at.Keys == kids.Keys
  {
    && [] in at
    && (forall p, q {:trigger SameNode(at, p, q)} :: p in at && q in at && SameNode(at, p, q) ==> p == q)
    && (forall p {:trigger Attached(at, kids, p)} :: p in at && p != [] ==> Attached(at, kids, p))
    && (forall p, c {:trigger Placed(at, p, c)} :: p in at && c in kids[p] ==> Placed(at, p, c))
    && (forall p {:trigger DistinctKeys(kids[p], TopicKey)} :: p in at ==> DistinctKeys(kids[p], TopicKey))
  }

  ghost predicate Valid(ix: Index)
    reads ix.nodes
  {
    ix.Owned() && Linked(ix.at, Kids(ix))
  }

  ghost predicate Extends(before: Index, ix: Index) {
    && before.nodes <= ix.nodes
    && forall p :: p in before.at ==> p in ix.at && ix.at[p] == before.at[p]
  }

  lemma Unaliased(at: map<Path, TopicNode>, kids: Links, p: Path)
    requires at.Keys == kids.Keys && Linked(at, kids) && p in at
    ensures forall q :: q in at && q != p ==> at[q] != at[p]
  {
    forall q | q in at && q != p ensures at[q] != at[p] {
      assert !SameNode(at, p, q);
    }
  }

  lemma ChildTopic(at: map<Path, TopicNode>, kids: Links, p: Path, seg: string)
    requires at.Keys == kids.Keys && Linked(at, kids) && p in at
    ensures p + [seg] in at ==> at[p + [seg]] in kids[p] && at[p + [seg]].topic == seg
  {
    if p + [seg] in at {
      assert Attached(at, kids, p + [seg]);
      assert Parent(p + [seg]) == p;
      var c := at[p + [seg]];
      assert Placed(at, p, c);
      assert SameNode(at, p + [c.topic], p + [seg]);
      assert (p + [c.topic])[|p|] == (p + [seg])[|p|];
    }
  }

  lemma NewTopicIsDistinct(at: map<Path, TopicNode>, kids: Links, p: Path, next: TopicNode)
    requires at.Keys == kids.Keys && Linked(at, kids) && p in at
    requires p + [next.topic] !in at
    ensures DistinctKeys(kids[p] + [next], TopicKey)
  {
    assert DistinctKeys(kids[p], TopicKey);
    forall c | c in kids[p] ensures TopicKey(c) != TopicKey(next) {
      assert Placed(at, p, c);
      assert TopicKey(c)[0] == c.topic && TopicKey(next)[0] == next.topic;
    }
  }

  /** Appending a new node to the children of the node at `p` keeps the trie a trie. */
  lemma AppendedIsLinked(at: map<Path, TopicNode>, kids: Links, p: Path, next: TopicNode)
    requires at.Keys == kids.Keys && Linked(at, kids) && p in at
    requires p + [next.topic] !in at && forall q :: q in at ==> at[q] != next
    ensures Linked(at[p + [next.topic] := next], kids[p := kids[p] + [next]][p + [next.topic] := []])
  {
    var r := p + [next.topic];
    var at', kids' := at[r := next], kids[p := kids[p] + [next]][r := []];
    assert Parent(r) == p;
    forall q, u | q in at' && u in at' && SameNode(at', q, u) ensures q == u {
      if q in at && u in at {
        assert SameNode(at, q, u);
      }
    }
    forall q | q in at' && q != [] ensures Attached(at', kids', q) {
      if q != r {
        assert Attached(at, kids, q);
      }
    }
    forall q: Path, c: TopicNode | q in at' && c in kids'[q] ensures Placed(at', q, c) {
      if q in at && c in kids[q] {
        assert Placed(at, q, c);
      }
    }
    forall q | q in at' ensures DistinctKeys(kids'[q], TopicKey) {
      if q != r {
        assert DistinctKeys(kids[q], TopicKey);
      }
      if q == p {
        NewTopicIsDistinct(at, kids, p, next);
      }
    }
  }

  /** The loop shared by `insertTopic` and `mergeTopic`: the first child with a topic, or nil. */
  method FindChild(children: seq<TopicNode>, topic: string) returns (found: TopicNode?)
    ensures found != null ==> found in children && found.topic == topic
    ensures found == null ==> forall c :: c in children ==> c.topic != topic
  {
    found := null;
    for i := 0 to |children|
      invariant forall c :: c in children[..i] ==> c.topic != topic
    {
      if children[i].topic == topic {
        return children[i];
      }
    }
  }

  method AppendChild(cur: TopicNode, next: TopicNode, ghost ix: Index, ghost p: Path) returns (ghost ix': Index)
    requires Valid(ix) && p in ix.at && ix.at[p] == cur
    requires next !in ix.nodes && next.children == [] && next.subscribers == 0 && p + [next.topic] !in ix.at
    modifies cur`children
    ensures ix' == Index(ix.at[p + [next.topic] := next], ix.nodes + {next})
    ensures Valid(ix')
    ensures Counts(ix') == Touch(old(Counts(ix)), p + [next.topic])
  {
    ghost var kids := Kids(ix);
    Unaliased(ix.at, kids, p);
    AppendedIsLinked(ix.at, kids, p, next);
    cur.children := cur.children + [next];
    ix' := Index(ix.at[p + [next.topic] := next], ix.nodes + {next});
    assert Kids(ix') == kids[p := kids[p] + [next]][p + [next.topic] := []];
  }

  /** Find the child `seg` of the node at `p`, appending a new node when there is none. */
  method Descend(cur: TopicNode, seg: string, ghost ix: Index, ghost p: Path)
    returns (next: TopicNode, ghost ix': Index)
    requires Valid(ix) && p in ix.at && ix.at[p] == cur
    modifies cur`children
    ensures Valid(ix') && Extends(ix, ix') && fresh(ix'.nodes - ix.nodes)
    ensures p + [seg] in ix'.at && ix'.at[p + [seg]] == next
    ensures Counts(ix') == Touch(old(Counts(ix)), p + [seg])
  {
    var found := FindChild(cur.children, seg);
    ghost var kids := Kids(ix);
    ChildTopic(ix.at, kids, p, seg);
    if found == null {
      next := new TopicNode(seg);
      ix' := AppendChild(cur, next, ix, p);
    } else {
      next := found;
      ix' := ix;
      assert found in kids[p];
      assert Placed(ix.at, p, found);
    }
  }

  method AddSubscribers(n: TopicNode, k: int, ghost ix: Index, ghost p: Path)
    requires Valid(ix) && p in ix.at && ix.at[p] == n
    modifies n`subscribers
    ensures Valid(ix)
    ensures Counts(ix) == Bumped(old(Counts(ix)), p, k)
  {
    ghost var kids := Kids(ix);
    Unaliased(ix.at, kids, p);
    n.subscribers := n.subscribers + k;
    assert Kids(ix) == kids;
  }

  /** `insertTopic`: every prefix of the filter gets a node, and the last one a subscriber more. */
  method InsertTopic(root: TopicNode, filter: string, ghost ix: Index) returns (ghost ix': Index)
    requires Valid(ix) && ix.at[[]] == root
    modifies ix.nodes
    ensures Valid(ix') && Extends(ix, ix') && fresh(ix'.nodes - ix.nodes)
    ensures Counts(ix') == Inserted(old(Counts(ix)), Split(filter))
  {
    var segs := Split(filter);
    var cur := root;
    ix' := ix;
    for k := 0 to |segs|
      invariant Valid(ix') && Extends(ix, ix') && fresh(ix'.nodes - ix.nodes)
      invariant segs[..k] in ix'.at && ix'.at[segs[..k]] == cur
      invariant Counts(ix') == TouchPrefixes(old(Counts(ix)), segs[..k])
    {
      TouchPrefixesStep(old(Counts(ix)), segs, k);
      cur, ix' := Descend(cur, segs[k], ix', segs[..k]);
    }
    assert segs[..|segs|] == segs;
    AddSubscribers(cur, 1, ix', segs);
  }

  /** A decoded peer answer: the nodes reachable from `n` spell out the value `t` and lie in `nodes`. */
  ghost predicate Represents(n: TopicNode, t: Tree, nodes: set<TopicNode>)
    reads nodes
    decreases t
  {
    && n in nodes
    && n.topic == t.topic && n.subscribers == t.subscribers
    && |n.children| == |t.children|
    && forall i :: 0 <= i < |t.children| ==> Represents(n.children[i], t.children[i], nodes)
  }

  /** `mergeTopic` adds the counts of `src` path by path below `dst`, and reads `src` only. */
  method MergeTopic(dst: TopicNode, src: TopicNode, ghost t: Tree, ghost nodes: set<TopicNode>,
                    ghost ix: Index, ghost p: Path) returns (ghost ix': Index)
    requires Valid(ix) && p in ix.at && ix.at[p] == dst
    requires Represents(src, t, nodes) && nodes !! ix.nodes
    modifies ix.nodes
    ensures Valid(ix') && Extends(ix, ix') && fresh(ix'.nodes - ix.nodes)
    ensures Represents(src, t, nodes) && nodes !! ix'.nodes
    ensures Counts(ix') == Merged(old(Counts(ix)), p, t)
    decreases t, 0
  {
    AddSubscribers(dst, src.subscribers, ix, p);
    ix' := ix;
    ghost var start := Counts(ix);
    assert |src.children| == |t.children| && t.children[..|t.children|] == t.children;
    for i := 0 to |src.children|
      invariant Valid(ix') && Extends(ix, ix') && fresh(ix'.nodes - ix.nodes)
      invariant Represents(src, t, nodes)
      invariant Counts(ix') == MergedForest(start, p, t.children[..i])
    {
      MergedForestStep(start, p, t.children, i);
      assert Represents(src.children[i], t.children[i], nodes);
      ix' := MergeChild(dst, src.children[i], t.children[i], nodes, ix', p);
    }
  }

  /** The body of the loop in `mergeTopic`: find or append the matching child, then merge into it. */
  method MergeChild(dst: TopicNode, srcChild: TopicNode, ghost c: Tree, ghost nodes: set<TopicNode>,
                    ghost ix: Index, ghost p: Path) returns (ghost ix': Index)
    requires Valid(ix) && p in ix.at && ix.at[p] == dst
    requires Represents(srcChild, c, nodes) && nodes !! ix.nodes
    modifies ix.nodes
    ensures Valid(ix') && Extends(ix, ix') && fresh(ix'.nodes - ix.nodes)
    ensures nodes !! ix'.nodes
    ensures var q := p + [c.topic]; Counts(ix') == Merged(Touch(old(Counts(ix)), q), q, c)
    decreases c, 1
  {
    var child, ix1 := Descend(dst, srcChild.topic, ix, p);
    ix' := MergeTopic(child, srcChild, c, nodes, ix1, p + [c.topic]);
  }

  ghost function Below(ix: Index, p: Path): set<Path> {
    set r | r in ix.at && p <= r
  }

  lemma BelowChild(ix: Index, p: Path, seg: string)
    requires p in ix.at
    ensures Below(ix, p + [seg]) < Below(ix, p)
  {
    assert p in Below(ix, p) && p !in Below(ix, p + [seg]);
  }

  /** The ancestors of a node are nodes. */
  lemma {:induction false} PrefixClosed(at: map<Path, TopicNode>, kids: Links, q: Path, r: Path)
    requires at.Keys == kids.Keys && Linked(at, kids)
    requires r in at && q <= r
    ensures q in at
    decreases |r|
  {
    if q != r {
      assert Attached(at, kids, r);
      PrefixClosed(at, kids, q, Parent(r));
    }
  }

  /** A node strictly below `p` is reached through a child of the node at `p`. */
  lemma ThroughChild(at: map<Path, TopicNode>, kids: Links, p: Path, r: Path) returns (j: nat)
    requires at.Keys == kids.Keys && Linked(at, kids)
    requires p in at && r in at && p < r
    ensures j < |kids[p]| && kids[p][j].topic == r[|p|] && p + [kids[p][j].topic] <= r
  {
    var q := p + [r[|p|]];
    assert q <= r;
    PrefixClosed(at, kids, q, r);
    ChildTopic(at, kids, p, r[|p|]);
    j :| 0 <= j < |kids[p]| && kids[p][j] == at[q];
  }

  ghost predicate SortedFrom(kids: Links, p: Path) {
    forall r :: r in kids && p <= r ==> SortedBy(kids[r], TopicKey)
  }

  /** Below `p`, no child stands behind one that comes after it. */
  ghost predicate OrderedFrom(kids: Links, p: Path) {
    forall r :: r in kids && p <= r ==> InOrder(kids[r], TopicKey)
  }

  lemma SortedFromIsOrdered(kids: Links, p: Path)
    ensures SortedFrom(kids, p) <==> OrderedFrom(kids, p)
  {
    forall r | r in kids && p <= r ensures SortedBy(kids[r], TopicKey) <==> InOrder(kids[r], TopicKey) {
      SortedIsInOrder(kids[r], TopicKey);
    }
  }

  /** Children were only rearranged, and only at or below `p`. */
  ghost predicate Rearranged(kids: Links, kids': Links, p: Path) {
    && kids.Keys == kids'.Keys
    && (forall r :: r in kids ==> multiset(kids'[r]) == multiset(kids[r]))
    && (forall r :: r in kids && !(p <= r) ==> kids'[r] == kids[r])
  }

  lemma RearrangedIsLinked(at: map<Path, TopicNode>, kids: Links, kids': Links, p: Path)
    requires at.Keys == kids.Keys && Linked(at, kids)
    requires Rearranged(kids, kids', p)
    ensures Linked(at, kids')
  {
    forall r | r in at
      ensures DistinctKeys(kids'[r], TopicKey)
      ensures forall c :: c in kids'[r] <==> c in kids[r]
    {
      PermutationKeepsDistinct(kids[r], kids'[r], TopicKey);
    }
    forall r | r in at && r != [] ensures Attached(at, kids', r) {
      assert Attached(at, kids, r);
    }
    forall r: Path, c: TopicNode | r in at && c in kids'[r] ensures Placed(at, r, c) {
      assert c in kids[r];
    }
  }

  method SortChildren(n: TopicNode, ghost ix: Index, ghost p: Path)
    requires Valid(ix) && p in ix.at && ix.at[p] == n
    modifies n`children
    ensures Valid(ix) && Counts(ix) == old(Counts(ix))
    ensures Rearranged(old(Kids(ix)), Kids(ix), p)
    ensures SortedBy(n.children, TopicKey)
  {
    ghost var kids := Kids(ix);
    Unaliased(ix.at, kids, p);
    n.children := SortSlice(n.children, TopicKey);
    assert Kids(ix) == kids[p := n.children];
    RearrangedIsLinked(ix.at, kids, Kids(ix), p);
  }

  /** `sortTree` and `sortTopicTree`: sorts the children of every node below `n`, and nothing else changes. */
  method SortTree(n: TopicNode, ghost ix: Index, ghost p: Path)
    requires Valid(ix) && p in ix.at && ix.at[p] == n
    modifies ix.nodes
    ensures Valid(ix) && Counts(ix) == old(Counts(ix))
    ensures Rearranged(old(Kids(ix)), Kids(ix), p)
    ensures SortedFrom(Kids(ix), p) && OrderedFrom(Kids(ix), p)
    decreases Below(ix, p)
  {
    SortChildren(n, ix, p);
    var children := n.children;
    for i := 0 to |children|
      invariant Valid(ix) && Counts(ix) == old(Counts(ix))
      invariant Rearranged(old(Kids(ix)), Kids(ix), p)
      invariant Kids(ix)[p] == children
      invariant forall j :: 0 <= j < i ==> SortedFrom(Kids(ix), p + [children[j].topic])
    {
      ghost var kids := Kids(ix);
      ghost var q := p + [children[i].topic];
      assert Placed(ix.at, p, children[i]);
      BelowChild(ix, p, children[i].topic);
      SortTree(children[i], ix, q);
      RearrangeKeepsSorted(ix.at, kids, Kids(ix), p, children, i);
    }
    SortedThroughChildren(ix.at, Kids(ix), p);
    SortedFromIsOrdered(Kids(ix), p);
  }

  /** Sorting below one child leaves what was sorted below its earlier siblings as it was. */
  lemma RearrangeKeepsSorted(at: map<Path, TopicNode>, kids: Links, kids': Links, p: Path,
                             children: seq<TopicNode>, i: nat)
    requires at.Keys == kids.Keys && Linked(at, kids) && p in at && kids[p] == children && i < |children|
    requires forall j :: 0 <= j < i ==> SortedFrom(kids, p + [children[j].topic])
    requires Rearranged(kids, kids', p + [children[i].topic])
    requires SortedFrom(kids', p + [children[i].topic])
    ensures kids'[p] == children
    ensures forall j :: 0 <= j <= i ==> SortedFrom(kids', p + [children[j].topic])
    ensures forall before :: Rearranged(before, kids, p) ==> Rearranged(before, kids', p)
  {
    assert DistinctKeys(kids[p], TopicKey);
    forall j, r | 0 <= j < i && r in kids' && p + [children[j].topic] <= r ensures SortedBy(kids'[r], TopicKey) {
      assert TopicKey(children[j]) != TopicKey(children[i]);
      assert r[|p|] == children[j].topic != children[i].topic;
      assert SortedFrom(kids, p + [children[j].topic]);
    }
  }

  lemma SortedThroughChildren(at: map<Path, TopicNode>, kids: Links, p: Path)
    requires at.Keys == kids.Keys && Linked(at, kids) && p in at
    requires SortedBy(kids[p], TopicKey)
    requires forall j :: 0 <= j < |kids[p]| ==> SortedFrom(kids, p + [kids[p][j].topic])
    ensures SortedFrom(kids, p)
  {
    forall r | r in kids && p <= r ensures SortedBy(kids[r], TopicKey) {
      if p != r {
        var j := ThroughChild(at, kids, p, r);
        assert SortedFrom(kids, p + [kids[p][j].topic]);
      }
    }
  }

  // ----- JSON -----

  /** `json.Encode` of a trie: the value answers every path as the trie does. */
  method Encode(n: TopicNode, ghost ix: Index, ghost p: Path) returns (t: Tree)
    requires Valid(ix) && p in ix.at && ix.at[p] == n
    ensures t.topic == n.topic
    ensures forall q :: HasPath(t, q) <==> p + q in Counts(ix)
    ensures forall q :: PathCount(t, q) == CountAt(Counts(ix), p + q)
    ensures SortedFrom(Kids(ix), p) ==> SortedTree(t)
    decreases Below(ix, p)
  {
    var ts: seq<Tree> := [];
    for i := 0 to |n.children|
      invariant |ts| == i
      invariant forall j :: 0 <= j < i ==> Encodes(ts[j], Counts(ix), Kids(ix), p + [n.children[j].topic])
      invariant forall j :: 0 <= j < i ==> ts[j].topic == n.children[j].topic
    {
      var c := n.children[i];
      assert c in Kids(ix)[p];
      assert Placed(ix.at, p, c);
      BelowChild(ix, p, c.topic);
      var u := Encode(c, ix, p + [c.topic]);
      ts := ts + [u];
    }
    t := Tree(n.topic, n.subscribers, ts);
    EncodedNode(ix, Counts(ix), Kids(ix), p, t);
  }

  ghost predicate Encodes(t: Tree, m: CountMap, kids: Links, p: Path) {
    && (forall q :: HasPath(t, q) <==> p + q in m)
    && (forall q :: PathCount(t, q) == CountAt(m, p + q))
    && (SortedFrom(kids, p) ==> SortedTree(t))
  }

  lemma EncodedNode(ix: Index, m: CountMap, kids: Links, p: Path, t: Tree)
    requires ix.at.Keys == kids.Keys == m.Keys && Linked(ix.at, kids) && p in m
    requires t.subscribers == m[p] && |t.children| == |kids[p]|
    requires forall j :: 0 <= j < |kids[p]| ==> t.children[j].topic == kids[p][j].topic
    requires forall j :: 0 <= j < |kids[p]| ==> Encodes(t.children[j], m, kids, p + [kids[p][j].topic])
    ensures Encodes(t, m, kids, p)
  {
    assert DistinctSiblings(t.children) by {
      assert DistinctKeys(kids[p], TopicKey);
      forall i, j | 0 <= i < j < |kids[p]| ensures t.children[i].topic != t.children[j].topic {
        assert TopicKey(kids[p][i]) != TopicKey(kids[p][j]);
      }
    }
    forall q: Path
      ensures HasPath(t, q) <==> p + q in m
      ensures PathCount(t, q) == CountAt(m, p + q)
    {
      if q != [] && p + q in m {
        assert (p + q)[|p|] == q[0];
        var j := ThroughChild(ix.at, kids, p, p + q);
        assert TopicIn(t.children, q[0]);
      }
      NodeAnswers(t, m, p, q);
    }
    if SortedFrom(kids, p) {
      SortedNode(ix, kids, p, t);
    }
  }

  lemma SortedNode(ix: Index, kids: Links, p: Path, t: Tree)
    requires ix.at.Keys == kids.Keys && Linked(ix.at, kids) && p in kids
    requires |t.children| == |kids[p]| && SortedFrom(kids, p)
    requires forall j :: 0 <= j < |kids[p]| ==> t.children[j].topic == kids[p][j].topic
    requires forall j :: 0 <= j < |kids[p]| ==> SortedFrom(kids, p + [kids[p][j].topic]) ==> SortedTree(t.children[j])
    ensures SortedTree(t)
  {
    assert DistinctKeys(kids[p], TopicKey);
    SortedAndDistinctIsStrict(kids[p], TopicKey);
    forall i, j | 0 <= i < j < |kids[p]| ensures StringLess(t.children[i].topic, t.children[j].topic) {
      assert KeyLess(TopicKey(kids[p][i]), TopicKey(kids[p][j]));
      assert TopicKey(kids[p][i])[1..] == TopicKey(kids[p][j])[1..] == [];
    }
    forall j | 0 <= j < |kids[p]| ensures SortedTree(t.children[j]) {
      assert SortedFrom(kids, p + [kids[p][j].topic]);
    }
  }

  /** `json.Unmarshal` into a `topicNode`: new nodes that spell out the value. */
  method Decode(t: Tree) returns (n: TopicNode, ghost nodes: set<TopicNode>)
    ensures fresh(nodes) && Represents(n, t, nodes)
    decreases t
  {
    n := new TopicNode(t.topic);
    nodes := {};
    var children: seq<TopicNode> := [];
    for i := 0 to |t.children|
      invariant fresh(nodes) && n !in nodes && fresh(n) && n.topic == t.topic
      invariant |children| == i
      invariant forall j :: 0 <= j < i ==> Represents(children[j], t.children[j], nodes)
    {
      var c, more := Decode(t.children[i]);
      forall j | 0 <= j < i ensures Represents(children[j], t.children[j], nodes + more) {
        RepresentsMore(children[j], t.children[j], nodes, nodes + more);
      }
      RepresentsMore(c, t.children[i], more, nodes + more);
      children, nodes := children + [c], nodes + more;
    }
    n.subscribers, n.children := t.subscribers, children;
    forall j | 0 <= j < |t.children| ensures Represents(children[j], t.children[j], nodes + {n}) {
      RepresentsMore(children[j], t.children[j], nodes, nodes + {n});
    }
    nodes := nodes + {n};
  }

  lemma {:induction false} RepresentsMore(n: TopicNode, t: Tree, nodes: set<TopicNode>, more: set<TopicNode>)
    requires Represents(n, t, nodes) && nodes <= more
    ensures Represents(n, t, more)
    decreases t
  {
    forall i | 0 <= i < |t.children| ensures Represents(n.children[i], t.children[i], more) {
      RepresentsMore(n.children[i], t.children[i], nodes, more);
    }
  }

  // ----- The two endpoints -----

  method NewRoot() returns (root: TopicNode, ghost ix: Index)
    ensures Valid(ix) && [] in ix.at && ix.at[[]] == root && root.topic == ""
    ensures fresh(ix.nodes) && Counts(ix) == map[[] := 0]
  {
    root := new TopicNode("");
    ix := Index(map[[] := root], {root});
    assert Kids(ix) == map[[] := []];
  }

  ghost function AllFilters(clients: seq<seq<string>>): multiset<string> {
    if clients == [] then multiset{}
    else AllFilters(clients[..|clients| - 1]) + multiset(clients[|clients| - 1])
  }

  lemma OneMoreFilter(done: multiset<string>, filters: seq<string>, k: nat)
    requires k < |filters|
    ensures done + multiset(filters[..k + 1]) == done + multiset(filters[..k]) + multiset{filters[k]}
  {
    assert filters[..k + 1] == filters[..k] + [filters[k]];
  }

  /** The inner loop of `topicsTree`: all filters of one client. */
  method InsertFilters(root: TopicNode, filters: seq<string>, ghost ix: Index, ghost done: multiset<string>)
    returns (ghost ix': Index)
    requires Valid(ix) && ix.at[[]] == root && Indexes(Counts(ix), done)
    modifies ix.nodes
    ensures Valid(ix') && ix'.at[[]] == root && fresh(ix'.nodes - ix.nodes)
    ensures Indexes(Counts(ix'), done + multiset(filters))
  {
    ix' := ix;
    assert done + multiset(filters[..0]) == done;
    for k := 0 to |filters|
      invariant Valid(ix') && ix'.at[[]] == root && fresh(ix'.nodes - ix.nodes)
      invariant Indexes(Counts(ix'), done + multiset(filters[..k]))
    {
      InsertedIndexes(Counts(ix'), done + multiset(filters[..k]), filters[k]);
      OneMoreFilter(done, filters, k);
      ix' := InsertTopic(root, filters[k], ix');
    }
    assert filters[..|filters|] == filters;
  }

  method SortAndEncode(root: TopicNode, ghost ix: Index) returns (body: Tree)
    requires Valid(ix) && ix.at[[]] == root
    modifies ix.nodes
    ensures Valid(ix) && Counts(ix) == old(Counts(ix))
    ensures body.topic == root.topic && Alphabetical(body)
    ensures forall p :: HasPath(body, p) <==> p in Counts(ix)
    ensures forall p :: PathCount(body, p) == CountAt(Counts(ix), p)
  {
    SortTree(root, ix, []);
    body := Encode(root, ix, []);
    SortedIsAlphabetical(body);
    forall p: Path
      ensures HasPath(body, p) <==> p in Counts(ix)
      ensures PathCount(body, p) == CountAt(Counts(ix), p)
    {
      assert [] + p == p;
      assert HasPath(body, p) <==> [] + p in Counts(ix);
      assert PathCount(body, p) == CountAt(Counts(ix), [] + p);
    }
  }

  /** `topicsTree` on one node: the sorted index of the filters of all connected clients. */
  method TopicsTree(clients: seq<seq<string>>) returns (body: Tree)
    ensures IsTopicTree(body, AllFilters(clients))
  {
    var root, ix := NewRoot();
    assert Indexes(Counts(ix), multiset{});
    for i := 0 to |clients|
      invariant Valid(ix) && fresh(ix.nodes) && ix.at[[]] == root && root.topic == ""
      invariant Indexes(Counts(ix), AllFilters(clients[..i]))
    {
      assert clients[..i + 1][..i] == clients[..i];
      ix := InsertFilters(root, clients[i], ix, AllFilters(clients[..i]));
    }
    assert clients[..|clients|] == clients;
    body := SortAndEncode(root, ix);
    AnswersFromRoot(body, Counts(ix), AllFilters(clients));
  }

  lemma AnswersFromRoot(t: Tree, m: CountMap, filters: multiset<string>)
    requires t.topic == "" && Alphabetical(t) && Indexes(m, filters)
    requires forall q :: HasPath(t, q) <==> q in m
    requires forall q :: PathCount(t, q) == CountAt(m, q)
    ensures IsTopicTree(t, filters)
  {
    forall p: Path ensures PathCount(t, p) == FilterCount(filters, p) {
      AbsentFilterCountsZero(filters, p);
    }
  }

  ghost function Answered(answers: seq<Option<Tree>>): seq<Tree> {
    if answers == [] then []
    else
      var last := answers[|answers| - 1];
      Answered(answers[..|answers| - 1]) + (if last.Some? then [last.value] else [])
  }

  lemma AnsweredStep(answers: seq<Option<Tree>>, i: nat)
    requires i < |answers|
    ensures Answered(answers[..i + 1]) ==
            if answers[i].Some? then Answered(answers[..i]) + [answers[i].value] else Answered(answers[..i])
  {
    assert answers[..i + 1][..i] == answers[..i];
  }

  /** `topicsTree` on the cluster: the merge of the answers that arrived; failed peers are skipped. */
  method ClusterTopicsTree(answers: seq<Option<Tree>>) returns (body: Tree)
    ensures IsMergeOf(body, Answered(answers))
  {
    var root, ix := NewRoot();
    assert Sums(Counts(ix), []);
    for i := 0 to |answers|
      invariant Valid(ix) && fresh(ix.nodes) && ix.at[[]] == root && root.topic == ""
      invariant Sums(Counts(ix), Answered(answers[..i]))
    {
      AnsweredStep(answers, i);
      if answers[i].Some? {
        MergedSums(Counts(ix), Answered(answers[..i]), answers[i].value);
        var peer, nodes := Decode(answers[i].value);
        ix := MergeTopic(root, peer, answers[i].value, nodes, ix, []);
      }
    }
    assert answers[..|answers|] == answers;
    body := SortAndEncode(root, ix);
  }

  ghost function NodeFilters(nodes: seq<seq<seq<string>>>): seq<multiset<string>> {
    seq(|nodes|, i requires 0 <= i < |nodes| => AllFilters(nodes[i]))
  }

  /** The clients of all nodes, as one node would hold them. */
  function Flatten(nodes: seq<seq<seq<string>>>): seq<seq<string>> {
    if nodes == [] then [] else Flatten(nodes[..|nodes| - 1]) + nodes[|nodes| - 1]
  }

  lemma {:induction false} AllFiltersConcat(a: seq<seq<string>>, b: seq<seq<string>>)
    ensures AllFilters(a + b) == AllFilters(a) + AllFilters(b)
  {
    if b == [] {
      assert a + b == a;
    } else {
      AllFiltersConcat(a, b[..|b| - 1]);
      assert (a + b)[..|a + b| - 1] == a + b[..|b| - 1];
    }
  }

  lemma {:induction false} FlattenPools(nodes: seq<seq<seq<string>>>)
    ensures AllFilters(Flatten(nodes)) == Pool(NodeFilters(nodes))
  {
    if nodes == [] {
    } else {
      var last := |nodes| - 1;
      FlattenPools(nodes[..last]);
      AllFiltersConcat(Flatten(nodes[..last]), nodes[last]);
      assert NodeFilters(nodes)[..last] == NodeFilters(nodes[..last]);
    }
  }

  /**
   * The whole system: every node answers with its own tree, the cluster endpoint merges the
   * answers, and the result is the tree of one node that holds all the clients.
   */
  method ClusterAgreesWithSingleNode(nodes: seq<seq<seq<string>>>) returns (cluster: Tree, single: Tree)
    ensures cluster == single
    ensures IsTopicTree(cluster, Pool(NodeFilters(nodes)))
  {
    var answers := AnswersOf(nodes);
    cluster := ClusterTopicsTree(answers);
    single := TopicsTree(Flatten(nodes));
    FlattenPools(nodes);
    ClusterViewIsPooledView(Answered(answers), NodeFilters(nodes), cluster, single);
  }

  method AnswersOf(nodes: seq<seq<seq<string>>>) returns (answers: seq<Option<Tree>>)
    ensures |Answered(answers)| == |nodes|
    ensures forall i :: 0 <= i < |nodes| ==> IsTopicTree(Answered(answers)[i], AllFilters(nodes[i]))
  {
    answers := [];
    for i := 0 to |nodes|
      invariant |Answered(answers)| == i
      invariant forall j :: 0 <= j < i ==> IsTopicTree(Answered(answers)[j], AllFilters(nodes[j]))
    {
      var t := TopicsTree(nodes[i]);
      assert (answers + [Some(t)])[..|answers|] == answers;
      answers := answers + [Some(t)];
    }
  }
}
