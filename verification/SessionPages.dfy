/** The cluster's session pages: nodes and cluster together, and what the online parameter selects. */
module SessionPages {
  import opened Ordering
  import opened Pagination
  import opened Results
  import opened Slices
  import opened ClusterLists
  import opened ClusterPages

  // ----- Nodes and cluster together -----

  /** What a node has: its connected clients, and the sessions in the storage it shares with the others. */
  datatype Node<T> = Node(clients: seq<Row<T>>, stored: seq<Row<T>>)

  ghost predicate ValidNode<T>(n: Node<T>) {
    && DistinctKeys(n.clients, RowKey) && DistinctKeys(n.stored, RowKey)
    && (forall i :: 0 <= i < |n.clients| ==> n.clients[i].online)
    && (forall i :: 0 <= i < |n.stored| ==> !n.stored[i].online)
    && |n.clients| + |n.stored| + MAX_PAGE_SIZE < TWO_63
  }

  ghost predicate ValidNodes<T>(nodes: seq<Node<T>>) {
    forall i :: 0 <= i < |nodes| ==> ValidNode(nodes[i])
  }

  function AllSessions<T>(nodes: seq<Node<T>>): (r: seq<seq<Row<T>>>)
    ensures |r| == |nodes| && forall i :: 0 <= i < |r| ==> r[i] == Sessions(nodes[i].clients, nodes[i].stored)
  {
    seq(|nodes|, i requires 0 <= i < |nodes| => Sessions(nodes[i].clients, nodes[i].stored))
  }

  /** A node's answer to its peers: the first 500 rows of its listing. */
  method AskNode<T(!new)>(n: Node<T>, online: Option<bool>) returns (items: Option<seq<Row<T>>>, listing: seq<Row<T>>)
    requires ValidNode(n)
    ensures ListingOf(listing, Sessions(n.clients, n.stored), Matching(online))
    ensures items == Some(Take(listing, MAX_PAGE_SIZE))
  {
    listing := NodeSessions(n.clients, n.stored, online);
    ListingNoLonger(listing, Sessions(n.clients, n.stored));
    KeptIsShorter(n.stored, NotAmong(n.clients));
    items := ApplyPagination(listing, ParsePage(1, MAX_PAGE_SIZE));
    PaginationCorrectIff(listing, PageParams(1, MAX_PAGE_SIZE));
  }

  method AskNodes<T(!new)>(nodes: seq<Node<T>>, up: seq<bool>, online: Option<bool>)
    returns (sent: seq<Option<seq<Row<T>>>>, held: seq<Option<seq<Row<T>>>>)
    requires ValidNodes(nodes) && |up| == |nodes|
    ensures AllHeld(held, AllSessions(nodes), up, Matching(online)) && sent == Truncated(held, MAX_PAGE_SIZE)
  {
    sent, held := [], [];
    for i := 0 to |nodes|
      invariant |sent| == |held| == i
      invariant forall j :: 0 <= j < i ==>
        if up[j] then held[j].Some? && ListingOf(held[j].value, AllSessions(nodes)[j], Matching(online))
        else held[j] == None
      invariant sent == Truncated(held, MAX_PAGE_SIZE)
    {
      if up[i] {
        var items, listing := AskNode(nodes[i], online);
        sent, held := sent + [items], held + [Some(listing)];
      } else {
        sent, held := sent + [None], held + [None];
      }
    }
  }

  /**
   * Every answering node sends its first 500 sessions in the asked state, the cluster endpoint merges
   * them, and a page within the first 500 rows is the page of everything those nodes hold in that state.
   */
  method ClusterSessionsPage<T(!new)>(names: seq<string>, nodes: seq<Node<T>>, up: seq<bool>, online: Option<bool>,
                                      p: PageParams)
    returns (page: Option<seq<Row<T>>>, whole: seq<Row<T>>)
    requires |names| == |nodes| == |up| && ValidNodes(nodes)
    requires ValidParams(p) && Offset(p) + p.size <= MAX_PAGE_SIZE
    ensures IsWhole(whole, names, AllSessions(nodes), up, OnlineWins, Matching(online), Everything)
    ensures |whole| + MAX_PAGE_SIZE < TWO_63 ==> page == Some(PageOf(whole, p))
  {
    var sent, held := AskNodes(nodes, up, online);
    HeldAreListings(held, AllSessions(nodes), up, Matching(online), Everything);
    var total, items := ClusterSessions(names, sent, p);
    page := items;
    whole := MergeAllSessions(names, held);
    if |whole| + MAX_PAGE_SIZE < TWO_63 {
      ResponseIsExact(names, held, OnlineWins, Everything, p, total, items, whole);
    }
  }

  // ----- Filtering before the merge and after it -----

  /** Exactly the rows in one state. */
  function InState<T>(rows: seq<Row<T>>, online: bool): seq<Row<T>> {
    Kept(rows, Matching(Some(online)))
  }

  lemma {:induction false} RowsForInState<T>(all: seq<Row<T>>, online: bool, key: Key)
    ensures RowsFor(InState(all, online), key) == InState(RowsFor(all, key), online)
  {
    if all == [] {
    } else {
      var before, last := all[..|all| - 1], all[|all| - 1];
      RowsForInState(before, online, key);
      if last.online == online {
        assert (InState(before, online) + [last])[..|InState(before, online)|] == InState(before, online);
      }
      if last.key == key {
        KeptAppend(RowsFor(before, key), last, Matching(Some(online)));
      }
    }
  }

  /** An offline choice means that there is no online row. */
  lemma PickedOffline<T>(rows: seq<Row<T>>)
    requires rows != [] && !Pick(OnlineWins, rows).online
    ensures InState(rows, false) == rows && InState(rows, true) == []
  {
    var i := PickIsFirst(OnlineWins, rows);
    KeptAll(rows, Matching(Some(false)));
    KeptNone(rows, Matching(Some(true)));
  }

  /** An online choice is the choice among the online rows. */
  lemma {:induction false} PickedOnline<T>(rows: seq<Row<T>>)
    requires rows != [] && Pick(OnlineWins, rows).online
    ensures InState(rows, true) != [] && Pick(OnlineWins, InState(rows, true)) == Pick(OnlineWins, rows)
  {
    if |rows| == 1 {
      KeptAll(rows, Matching(Some(true)));
    } else {
      var before, last := rows[..|rows| - 1], rows[|rows| - 1];
      if Pick(OnlineWins, before).online {
        PickedOnline(before);
        var kept := InState(before, true);
        assert (kept + [last])[..|kept|] == kept;
      } else {
        PickedOffline(before);
      }
    }
  }

  lemma {:induction false} KeptIsStrict<T>(s: seq<Row<T>>, want: Row<T> -> bool)
    requires StrictlySortedBy(s, RowKey)
    ensures StrictlySortedBy(Kept(s, want), RowKey)
  {
    if s == [] {
    } else {
      var before, last := s[..|s| - 1], s[|s| - 1];
      KeptIsStrict(before, want);
      KeptRows(before, want);
      var kept := Kept(before, want);
      forall i | 0 <= i < |kept| ensures KeyLess(RowKey(kept[i]), RowKey(last)) {
        var j :| 0 <= j < |before| && before[j] == kept[i];
        assert KeyLess(RowKey(s[j]), RowKey(s[|s| - 1]));
      }
    }
  }

  /** Some client has rows in both states. */
  ghost predicate Mixed<T>(all: seq<Row<T>>) {
    exists key :: HasKey(InState(all, true), key) && HasKey(InState(all, false), key)
  }

  lemma HasKeyInState<T>(all: seq<Row<T>>, online: bool, key: Key)
    ensures HasKey(InState(all, online), key) <==> InState(RowsFor(all, key), online) != []
  {
    RowsForSome(InState(all, online), key);
    RowsForInState(all, online, key);
  }

  /** A merged row in a state is the choice among the rows in that state. */
  lemma ChosenInState<T>(r: Row<T>, all: seq<Row<T>>, online: bool)
    requires IsChosen(r, all, OnlineWins, Everything) && r.online == online
    ensures IsChosen(r, InState(all, online), OnlineWins, Everything)
  {
    RowsForInState(all, online, r.key);
    if online {
      PickedOnline(RowsFor(all, r.key));
    } else {
      PickedOffline(RowsFor(all, r.key));
    }
  }

  /** A key with a row in the state is merged in that state, unless it is offline here and online there. */
  lemma MergedInState<T>(whole: seq<Row<T>>, all: seq<Row<T>>, online: bool, key: Key)
    requires IsMerged(whole, all, OnlineWins, Everything) && HasKey(InState(all, online), key)
    ensures HasKey(InState(whole, online), key) <==> online || !HasKey(InState(all, true), key)
  {
    HasKeyInState(all, online, key);
    HasKeyInState(all, true, key);
    RowsForSome(all, key);
    KeptRows(RowsFor(all, key), Matching(Some(online)));
    var m :| 0 <= m < |all| && all[m].key == key;
    assert Everything(all[m].key) && HasKey(whole, all[m].key);
    var i :| 0 <= i < |whole| && whole[i].key == key;
    assert IsChosen(whole[i], all, OnlineWins, Everything);
    StateOfChosen(RowsFor(all, key));
    RowInState(whole, i, online);
  }

  /** The choice is online exactly when some row is. */
  lemma StateOfChosen<T>(rows: seq<Row<T>>)
    requires rows != []
    ensures Pick(OnlineWins, rows).online <==> InState(rows, true) != []
  {
    if Pick(OnlineWins, rows).online {
      PickedOnline(rows);
    } else {
      PickedOffline(rows);
    }
  }

  lemma RowInState<T>(whole: seq<Row<T>>, i: nat, online: bool)
    requires StrictlySortedBy(whole, RowKey) && i < |whole|
    ensures HasKey(InState(whole, online), whole[i].key) <==> whole[i].online == online
  {
    var want, kept := Matching<T>(Some(online)), InState(whole, online);
    KeptRows(whole, want);
    if whole[i].online == online {
      assert want(whole[i]) && whole[i] in kept;
      var j :| 0 <= j < |kept| && kept[j] == whole[i];
    }
    if HasKey(kept, whole[i].key) {
      var j :| 0 <= j < |kept| && kept[j].key == whole[i].key;
      var m :| 0 <= m < |whole| && whole[m] == kept[j];
      StrictKeyAt(whole, m, i);
    }
  }

  lemma PartIsMerged<T>(whole: seq<Row<T>>, all: seq<Row<T>>, online: bool)
    requires IsMerged(whole, all, OnlineWins, Everything) && (online || !Mixed(all))
    ensures IsMerged(InState(whole, online), InState(all, online), OnlineWins, Everything)
  {
    var kept, some := InState(whole, online), InState(all, online);
    KeptIsStrict(whole, Matching(Some(online)));
    KeptRows(whole, Matching(Some(online)));
    forall i | 0 <= i < |kept| ensures IsChosen(kept[i], some, OnlineWins, Everything) {
      var j :| 0 <= j < |whole| && whole[j] == kept[i];
      assert IsChosen(whole[j], all, OnlineWins, Everything);
      ChosenInState(whole[j], all, online);
    }
    forall j | 0 <= j < |some| ensures HasKey(kept, some[j].key) {
      assert HasKey(some, some[j].key);
      MergedInState(whole, all, online, some[j].key);
    }
  }

  /**
   * Filtering before the merge is filtering after it: always for online sessions, and for offline ones
   * exactly when no client has rows in both states.
   */
  lemma MergeByState<T>(all: seq<Row<T>>, part: seq<Row<T>>, whole: seq<Row<T>>, online: bool)
    requires IsMerged(whole, all, OnlineWins, Everything)
    requires IsMerged(part, InState(all, online), OnlineWins, Everything)
    ensures part == InState(whole, online) <==> online || !Mixed(all)
  {
    if online || !Mixed(all) {
      PartIsMerged(whole, all, online);
      MergedIsUnique(part, InState(whole, online), InState(all, online), OnlineWins, Everything);
    } else {
      var key :| HasKey(InState(all, true), key) && HasKey(InState(all, false), key);
      MergedInState(whole, all, false, key);
      var some := InState(all, false);
      var j :| 0 <= j < |some| && some[j].key == key;
      assert Everything(some[j].key) && HasKey(part, some[j].key);
    }
  }

  // ----- The same, in terms of the nodes -----

  /** The answers with the rows of one state only. */
  function AnswersInState<T>(answers: seq<Option<seq<Row<T>>>>, online: bool): (r: seq<Option<seq<Row<T>>>>)
    ensures |r| == |answers|
    ensures forall i :: 0 <= i < |r| ==>
      r[i] == if answers[i].Some? then Some(InState(answers[i].value, online)) else None
  {
    seq(|answers|, i requires 0 <= i < |answers| =>
      if answers[i].Some? then Some(InState(answers[i].value, online)) else None)
  }

  lemma {:induction false} LabelledInState<T>(rows: seq<Row<T>>, name: string, online: bool)
    ensures InState(Labelled(rows, name), online) == Labelled(InState(rows, online), name)
  {
    if rows == [] {
    } else {
      var last := |rows| - 1;
      LabelledInState(rows[..last], name, online);
      assert Labelled(rows, name)[..last] == Labelled(rows[..last], name);
    }
  }

  lemma {:induction false} AllRowsInState<T>(names: seq<string>, answers: seq<Option<seq<Row<T>>>>, online: bool)
    requires |names| == |answers|
    ensures AllRows(names, AnswersInState(answers, online)) == InState(AllRows(names, answers), online)
  {
    if names == [] {
    } else {
      var last := |names| - 1;
      AllRowsInState(names[..last], answers[..last], online);
      assert AnswersInState(answers, online)[..last] == AnswersInState(answers[..last], online);
      if answers[last].Some? {
        KeptConcat(AllRows(names[..last], answers[..last]), Labelled(answers[last].value, names[last]),
                   Matching(Some(online)));
        LabelledInState(answers[last].value, names[last], online);
      }
    }
  }

  lemma ListingInState<T>(listing: seq<Row<T>>, rows: seq<Row<T>>, online: bool)
    requires ListingOf(listing, rows, Matching(None))
    ensures ListingOf(InState(listing, online), rows, Matching(Some(online)))
  {
    KeptIsStrict(listing, Matching(Some(online)));
    KeptRows(listing, Matching(Some(online)));
    forall i | 0 <= i < |rows| && rows[i].online == online ensures rows[i] in InState(listing, online) {
      assert Matching<T>(None)(rows[i]) && rows[i] in listing;
    }
  }

  /** What the nodes list in one state is the part of what they list altogether. */
  lemma HeldInState<T>(held: seq<Option<seq<Row<T>>>>, some: seq<Option<seq<Row<T>>>>, members: seq<seq<Row<T>>>,
                       up: seq<bool>, online: bool)
    requires |up| == |members| && AllHeld(held, members, up, Matching(None))
    requires AllHeld(some, members, up, Matching(Some(online)))
    ensures some == AnswersInState(held, online)
  {
    forall i | 0 <= i < |members| ensures some[i] == AnswersInState(held, online)[i] {
      if up[i] {
        ListingInState(held[i].value, members[i], online);
        ListingIsUnique(some[i].value, InState(held[i].value, online), members[i], Matching(Some(online)));
      }
    }
  }

  /** An answering node lists the key in this state. */
  ghost predicate ListedAs<T>(members: seq<seq<Row<T>>>, up: seq<bool>, online: bool, key: Key)
    requires |up| == |members|
  {
    exists i :: 0 <= i < |members| && up[i] && HasKey(InState(members[i], online), key)
  }

  lemma ListingHasKey<T>(listing: seq<Row<T>>, rows: seq<Row<T>>, online: bool, key: Key)
    requires ListingOf(listing, rows, Matching(None))
    ensures HasKey(InState(listing, online), key) <==> HasKey(InState(rows, online), key)
  {
    var a, b := InState(listing, online), InState(rows, online);
    ListingInState(listing, rows, online);
    KeptRows(rows, Matching(Some(online)));
    if HasKey(a, key) {
      var i :| 0 <= i < |a| && a[i].key == key;
      assert a[i] in b;
    }
    if HasKey(b, key) {
      var i :| 0 <= i < |b| && b[i].key == key;
      assert b[i] in a;
    }
  }

  lemma ListedInAll<T>(names: seq<string>, held: seq<Option<seq<Row<T>>>>, members: seq<seq<Row<T>>>, up: seq<bool>,
                       online: bool, key: Key)
    requires |names| == |members| == |up| && AllHeld(held, members, up, Matching(None))
    ensures HasKey(InState(AllRows(names, held), online), key) <==> ListedAs(members, up, online, key)
  {
    var some := AnswersInState(held, online);
    AllRowsInState(names, held, online);
    KeysOfAll(names, some, key);
    forall i | 0 <= i < |members| && up[i]
      ensures HasKey(some[i].value, key) <==> HasKey(InState(members[i], online), key)
    {
      ListingHasKey(held[i].value, members[i], online, key);
    }
  }

  /** Some client is listed online by one answering node and offline by another. */
  ghost predicate HeldApart<T>(members: seq<seq<Row<T>>>, up: seq<bool>)
    requires |up| == |members|
  {
    exists key :: ListedAs(members, up, true, key) && ListedAs(members, up, false, key)
  }

  lemma MixedIffHeldApart<T>(names: seq<string>, held: seq<Option<seq<Row<T>>>>, members: seq<seq<Row<T>>>,
                             up: seq<bool>)
    requires |names| == |members| == |up| && AllHeld(held, members, up, Matching(None))
    ensures Mixed(AllRows(names, held)) <==> HeldApart(members, up)
  {
    var all := AllRows(names, held);
    if key :| HasKey(InState(all, true), key) && HasKey(InState(all, false), key) {
      ListedInAll(names, held, members, up, true, key);
      ListedInAll(names, held, members, up, false, key);
    }
    if key :| ListedAs(members, up, true, key) && ListedAs(members, up, false, key) {
      ListedInAll(names, held, members, up, true, key);
      ListedInAll(names, held, members, up, false, key);
    }
  }

  lemma WholeByState<T(!new)>(names: seq<string>, members: seq<seq<Row<T>>>, up: seq<bool>, online: bool,
                              part: seq<Row<T>>, whole: seq<Row<T>>)
    requires |names| == |members| == |up|
    requires IsWhole(whole, names, members, up, OnlineWins, Matching(None), Everything)
    requires IsWhole(part, names, members, up, OnlineWins, Matching(Some(online)), Everything)
    ensures part == InState(whole, online) <==> online || !HeldApart(members, up)
  {
    var held :| AllHeld(held, members, up, Matching(None)) &&
                IsMerged(whole, AllRows(names, held), OnlineWins, Everything);
    var some :| AllHeld(some, members, up, Matching(Some(online))) &&
                IsMerged(part, AllRows(names, some), OnlineWins, Everything);
    HeldInState(held, some, members, up, online);
    AllRowsInState(names, held, online);
    MergeByState(AllRows(names, held), part, whole, online);
    MixedIffHeldApart(names, held, members, up);
  }

  lemma StatesOfNode<T>(n: Node<T>)
    requires ValidNode(n)
    ensures InState(Sessions(n.clients, n.stored), true) == n.clients
    ensures InState(Sessions(n.clients, n.stored), false) == Kept(n.stored, NotAmong(n.clients))
  {
    var rest := Kept(n.stored, NotAmong(n.clients));
    KeptRows(n.stored, NotAmong(n.clients));
    KeptConcat(n.clients, rest, Matching(Some(true)));
    KeptConcat(n.clients, rest, Matching(Some(false)));
    KeptAll(n.clients, Matching(Some(true)));
    KeptNone(n.clients, Matching(Some(false)));
    KeptAll(rest, Matching(Some(false)));
    KeptNone(rest, Matching(Some(true)));
  }

  /** A client connected at `i` is stored at `j` and not connected there. */
  ghost predicate StoredElsewhere<T>(nodes: seq<Node<T>>, i: nat, j: nat, key: Key)
    requires i < |nodes| && j < |nodes|
  {
    HasKey(nodes[i].clients, key) && HasKey(nodes[j].stored, key) && !HasKey(nodes[j].clients, key)
  }

  ghost predicate SomeStoredElsewhere<T>(nodes: seq<Node<T>>, up: seq<bool>)
    requires |up| == |nodes|
  {
    exists i, j, key ::
      0 <= i < |nodes| && 0 <= j < |nodes| && up[i] && up[j] && StoredElsewhere(nodes, i, j, key)
  }

  lemma StoredButNotAmong<T>(n: Node<T>, key: Key)
    ensures HasKey(Kept(n.stored, NotAmong(n.clients)), key) <==> HasKey(n.stored, key) && !HasKey(n.clients, key)
  {
    var rest := Kept(n.stored, NotAmong(n.clients));
    KeptRows(n.stored, NotAmong(n.clients));
    if HasKey(rest, key) {
      var i :| 0 <= i < |rest| && rest[i].key == key;
      assert rest[i] in n.stored && NotAmong(n.clients)(rest[i]);
    }
    if HasKey(n.stored, key) && !HasKey(n.clients, key) {
      var i :| 0 <= i < |n.stored| && n.stored[i].key == key;
      assert NotAmong(n.clients)(n.stored[i]) && n.stored[i] in rest;
    }
  }

  /** Nodes hold a client apart exactly when one has it connected and another only has it stored. */
  lemma HeldApartIff<T>(nodes: seq<Node<T>>, up: seq<bool>)
    requires |up| == |nodes| && ValidNodes(nodes)
    ensures HeldApart(AllSessions(nodes), up) <==> SomeStoredElsewhere(nodes, up)
  {
    var members := AllSessions(nodes);
    forall i | 0 <= i < |nodes|
      ensures InState(members[i], true) == nodes[i].clients
      ensures InState(members[i], false) == Kept(nodes[i].stored, NotAmong(nodes[i].clients))
    {
      StatesOfNode(nodes[i]);
    }
    if key :| ListedAs(members, up, true, key) && ListedAs(members, up, false, key) {
      var i :| 0 <= i < |members| && up[i] && HasKey(InState(members[i], true), key);
      var j :| 0 <= j < |members| && up[j] && HasKey(InState(members[j], false), key);
      StoredButNotAmong(nodes[j], key);
      assert StoredElsewhere(nodes, i, j, key);
    }
    if i, j, key :| 0 <= i < |nodes| && 0 <= j < |nodes| && up[i] && up[j] && StoredElsewhere(nodes, i, j, key) {
      StoredButNotAmong(nodes[j], key);
      assert HasKey(InState(members[i], true), key) && HasKey(InState(members[j], false), key);
      assert ListedAs(members, up, true, key) && ListedAs(members, up, false, key);
    }
  }

  /**
   * The list for `online=true` is always the online part of the list without the parameter. The list for
   * `online=false` is its offline part exactly when no client connected at one answering node is stored
   * at another where it is not connected.
   */
  lemma OnlineParameterIff<T(!new)>(names: seq<string>, nodes: seq<Node<T>>, up: seq<bool>, online: bool,
                                    part: seq<Row<T>>, whole: seq<Row<T>>)
    requires |names| == |nodes| == |up| && ValidNodes(nodes)
    requires IsWhole(whole, names, AllSessions(nodes), up, OnlineWins, Matching(None), Everything)
    requires IsWhole(part, names, AllSessions(nodes), up, OnlineWins, Matching(Some(online)), Everything)
    ensures part == InState(whole, online) <==> online || !SomeStoredElsewhere(nodes, up)
  {
    WholeByState(names, AllSessions(nodes), up, online, part, whole);
    HeldApartIff(nodes, up);
  }
}
