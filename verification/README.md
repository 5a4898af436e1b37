# comqtt-dashboard, verified

A Dafny 4.11 model of the stateful parts of comqtt-dashboard, with proofs of what they keep over
every input, every run and every interleaving. `dafny verify dfyconfig.toml` checks all of it.

| file | models |
|---|---|
| Ordering.dfy, Slices.dfy, Results.dfy | Go's string order and `sort.Slice` (sorted and a permutation, not stable); filtering a slice in place; options and error returns |
| TopicTree.dfy, TopicNodes.dfy | the topic tries: values and counts, then the pointer code over the heap |
| Hub.dfy, HubRuns.dfy | the event hub: one call at a time as a class, then goroutines interleaved at every atomic step and every send |
| Dedup.dfy, Bridge.dfy | the FIFO-with-set of seen events; N nodes and a Redis channel that loses, duplicates and reorders |
| Lockout.dfy, LockoutRuns.dfy | the sliding-window lockout; logins that overlap between the check and the record |
| Pagination.dfy, ClusterLists.dfy, ClusterPages.dfy, SessionPages.dfy | pages in 64-bit integers; per-node lists, their cluster merge, when its pages and totals are exact, and what the online parameter selects |
| Secret.dfy | the shared session secret: GET, SETNX, GET by any number of callers |
| Credentials.dfy, RedisStore.dfy, FileStore.dfy, FileStoreRuns.dfy | user records; WATCH/MULTI/EXEC clients; the JSON file store, the users page and its overlapping requests |
| Base64.dfy, Session.dfy, AclStore.dfy | unpadded base64url, the signed cookie, the ACL rule ids and the ledger file |

How the source's things appear here:

- A `topicNode` is a class with its three fields. Ghost parameters say which node sits at which path
  (`Index`), so the invariant of a trie is a list of flat facts and no recursive predicate on the heap.
- A concurrent protocol is a total function `Next` from state and action to state; an action that is
  not enabled changes nothing, so every list of actions is a run and `Run` folds them.
- I/O, clocks, random bytes, HMAC, bcrypt and JSON are parameters: peer answers are a value or a
  failure, times are arguments, hashes are any function. `VerifySigned` and `OtherSecret` ask that
  unmarshalling undoes marshalling for the payload at hand.
- Lists require one row per key within a member (a broker's client map has that by construction) and
  lengths that leave room for one page below 2^63.
- The SSE model has one process lifetime per node, because the counter restarts with the process;
  where distinct node names are needed the lemma says so.

Where comments and code differ, the model follows the code: the comment in
cluster/rest/clients_list.go:30 says the last writer wins, the loop keeps the first row;
rest/clients_list.go:21 calls the filter a prefix, the code tests for a substring.

Some properties one might expect are false, and the exact condition is proved instead:

- a page is the expected slice exactly when its offset fits an int64 or the wrapped offset lies past
  the end (`PaginationCorrectIff`; `LargestPagePanics` gives the input);
- the failures of a user since its last success stay within the threshold in every run exactly when the
  lock lasts at least one window and logins do not overlap (`ThresholdKeptIff`); m overlapping logins add
  m - 1, which is the exact bound for a long lock (`FailureRate`, `RateBoundIffLongLock`; `RateIsReached`
  and `ShortLockExceeds` give the runs);
- a rule id deletes its own rule, and all runs of calls have the meant effect, exactly when the subject
  has no 0x1F byte (`DeleteByIdIff`, `RunsAreMeantIff`; `WrongRuleIsDeleted` gives the rule that goes);
- the hub delivers in the order of its sequence numbers in every run exactly when there is at most one
  goroutine (`OrderedIffOneGoroutine`; `OverlapCanReorder` gives the run);
- Close leaves open exactly the channels subscribed after it and not unsubscribed, although the comment
  on Subscribe says that Unsubscribe or Close closes them (`CloseIsFinal`);
- a creation in Redis replaces an existing record exactly when the last creation or deletion of the
  name since its check was a creation, and never does exactly with at most one client
  (`CreationReplacesIff`, `NoReplacementIffOneClient`; `CreationsCanOverlap` gives the run);
- the last-admin guards keep an admin in every run exactly with at most one client, on Redis and on the
  file store (`AdminKeptIffOneClient`, `SoundIffOneHandler`; `AdminsCanBeLost` and `TogglesCanOverlap`
  give the runs);
- a cluster page is exact in every cluster exactly when it lies within the first 500 rows
  (`PageExactIff`; `RowsBeyondLimitAreLost` gives the rows), and its total exactly when no row is lost,
  which the sizes guarantee exactly when no member has more than 500 (`TotalExactIff`,
  `TotalExactForSizesIff`; `ApartIsShort` gives the cluster);
- the cluster's online=false list is the offline part of the whole list exactly when no client connected
  at one node is stored at another where it is not connected (`OnlineParameterIff`).

## Model

| member | source | states |
|---|---|---|
| `Ordering.StringLessIsBefore` | rest/topics_tree.go:50 | the order of topics and ids is lexicographic: at the first difference the smaller byte decides, or the shorter string ends |
| `Ordering.KeyLessIsBefore` | cluster/rest/subscriptions_list.go:64-69 | composite keys compare by their first different part, in that order |
| `TopicTree.SplitIsJoinInverse` | rest/topics_tree.go:32 | a path is the split of a filter exactly when joining it gives the filter: splitting loses nothing |
| `TopicNodes.Descend` | rest/topics_tree.go:33-44 | find-or-append keeps the trie a trie, adds at most the one missing node with count 0, changes no count |
| `TopicNodes.InsertTopic` | rest/topics_tree.go:30-47 | the heap trie afterwards is the old index with every prefix present and the filter's own count one higher |
| `TopicTree.InsertedIndexes` | rest/topics_tree.go:30-47 | if the index held exactly the prefixes and multiplicities of a multiset of filters, it now does so for the multiset with the filter added |
| `TopicNodes.MergeTopic` | cluster/rest/topics_tree.go:47-63 | the destination becomes the merged index; the source's nodes are unchanged and none is shared; terminates on the source |
| `TopicTree.MergedPointwise` | cluster/rest/topics_tree.go:45-63 | merging is pointwise: at every path the new count is the old plus the source's, for sources with repeated siblings too |
| `TopicNodes.SortTree` | rest/topics_tree.go:49-54 | below a node no child stands behind one that comes after it by the first different byte; children are only rearranged; counts stay |
| `TopicTree.SortedTreeUnique` | cluster/rest/topics_tree.go:65-70 | two sorted trees with the same paths and counts are equal |
| `TopicNodes.TopicsTree` | rest/topics_tree.go:19-28 | the response is the alphabetical index of all clients' filters: a node per prefix, the multiplicity as count |
| `TopicNodes.ClusterTopicsTree` | cluster/rest/topics_tree.go:24-43 | the response has the paths of all answering peers and the sum of their counts; failed peers are skipped |
| `TopicTree.ClusterViewIsPooledView` | cluster/rest/topics_tree.go:19-43 | merging the nodes' trees gives the very tree of one node holding all subscriptions |
| `TopicTree.PeerOrderIrrelevant` | cluster/rest/topics_tree.go:28-39 | any order of the peers gives the same tree |
| `TopicNodes.ClusterAgreesWithSingleNode` | cluster/rest/topics_tree.go:24-43 | running all nodes, the merge and the single node on the heap returns two equal trees |
| `Hub.Hub.Subscribe` | dashboard/sse/hub.go:28-34 | registers one new open channel |
| `Hub.Hub.Unsubscribe` | dashboard/sse/hub.go:38-50 | afterwards registered are exactly the others, in order, and the target is closed, once; nothing if it was not registered |
| `Hub.RemoveInPlace` | dashboard/sse/hub.go:41-49 | the filter that reads and writes one array leaves the others in front |
| `Hub.Hub.Publish` | dashboard/sse/hub.go:55-69 | with no receiver waiting: a stamp one higher; every buffer gets the event or its drop is counted; a closed hub does nothing |
| `Hub.Hub.Close` | dashboard/sse/hub.go:76-86 | closes every registered channel once and empties the registry; later calls do nothing |
| `HubRuns.NeverPanics` | dashboard/sse/hub.go:28-86 | in every interleaving no send targets a closed channel and no channel is closed twice |
| `HubRuns.FanOutIsConserved` | dashboard/sse/hub.go:55-72 | in every run, events enqueued plus drops equal the subscribers visited by all fan-outs |
| `HubRuns.EachStampAtMostOnce` | dashboard/sse/hub.go:55-69 | in every interleaving a subscriber receives each sequence number at most once |
| `HubRuns.SerialisedRunsAreOrdered` | dashboard/sse/hub.go:55-69 | when no two publishes overlap, every subscriber receives strictly increasing numbers |
| `HubRuns.OverlapCanReorder` | dashboard/sse/hub.go:59-60 | for every buffer size and two or more goroutines, a run of overlapping publishes that delivers in the other order: the stamp precedes the lock |
| `HubRuns.OrderedIffOneGoroutine` | dashboard/sse/hub.go:55-69 | every run delivers in order if and only if there is at most one goroutine, whatever the buffer size |
| `HubRuns.BuffersStayBounded` | dashboard/sse/hub.go:31 | in every run, with receivers waiting or not, a channel holds between zero and bufSize events |
| `HubRuns.OpenIffRegistered` | dashboard/sse/hub.go:28-86 | in every run a channel ever handed out is open if and only if it is registered |
| `HubRuns.OpenIffNotClosed` | dashboard/sse/hub.go:28-86 | in every run there is a channel for each Subscribe carried out, open if and only if no Unsubscribe carried out named it and no Close came after it |
| `HubRuns.StepsRefineSubscribe` | dashboard/sse/hub.go:28-34 | one new channel, open, empty and registered; nothing else changes |
| `HubRuns.StepsRefineUnsubscribe` | dashboard/sse/hub.go:38-50 | the channel is closed and no longer registered, all others stay as they were |
| `HubRuns.StepsRefineClose` | dashboard/sse/hub.go:76-86 | the first Close closes every channel; on a closed hub Close and Publish do nothing |
| `HubRuns.ReceiveTakesOldest` | dashboard/sse/hub.go:63-64 | a receiver gets the oldest waiting event |
| `HubRuns.UnbufferedSend` | dashboard/sse/hub.go:62-67 | without a buffer an event goes to a waiting receiver and is counted as dropped otherwise |
| `HubRuns.CloseIsFinal` | dashboard/sse/hub.go:26-86 | after the critical section of Close, open are exactly the channels subscribed later and not unsubscribed since; all others are closed for good |
| `HubRuns.StepsRefinePublish` | dashboard/sse/hub.go:55-69 | the steps of an uninterrupted publish have the effect of the sequential method |
| `HubRuns.PublishGoesOn` | dashboard/sse/hub.go:56-69 | a publish past its check goes on to the end, whatever happens around it, also while the hub is being closed |
| `Dedup.ParseFormatted` | dashboard/sse/bridge_redis.go:119 | the decimal text of a number parses back to it |
| `Dedup.EventKeyInjective` | dashboard/sse/bridge_redis.go:119 | node, colon and number determine node and number, also for names with colons |
| `Dedup.Lru.Add` | dashboard/sse/bridge_redis.go:142-154 | true exactly for keys not remembered; order and set stay equal, duplicate-free and within the capacity |
| `Dedup.MemoryIsLastAccepted` | dashboard/sse/bridge_redis.go:128-154 | after any run the memory is the last cap accepted keys, and equal accepted keys are more than cap apart |
| `Bridge.NoEventCirculates` | dashboard/sse/bridge_redis.go:75-126 | in every run what a node puts on the channel carries its name, was produced there, and is put there once |
| `Bridge.FirstCopyIsAccepted` | dashboard/sse/bridge_redis.go:112-123 | in every run the first copy of a peer's event that reaches a receiver enters the local hub: stamped with its next number, on its way to the subscribers, nothing else moved |
| `Bridge.EveryEventIsAccounted` | dashboard/sse/bridge_redis.go:75-126 | in every run everything produced or accepted was stamped once and is in one place: on its way, buffered, taken by the publisher, or dropped by a full buffer; forwarded are exactly the own events taken, in order |
| `Bridge.ForwardTakesOldest` | dashboard/sse/bridge_redis.go:80-92 | the publisher takes the oldest event and puts it on the channel if and only if it is the node's own |
| `Bridge.FanOutQueues` | dashboard/sse/hub.go:62-67 | an event on its way gets behind the waiting ones, or is dropped by a full buffer |
| `Bridge.EventReachesPeer` | dashboard/sse/bridge_redis.go:75-126 | from every reachable state with nothing waiting, an event produced, fanned out, forwarded and delivered is on its way to the peer's subscribers |
| `Bridge.RepeatNeedsFullMemory` | dashboard/sse/bridge_redis.go:119-122 | two acceptances of one event have at least cap others between them |
| `Slices.FilterInPlace` | dashboard/auth/lockout.go:40-45 | the loop over `s[:0]`, which reads and writes one array, leaves exactly the wanted elements in front, in order |
| `Lockout.Lockout.Record` | dashboard/auth/lockout.go:30-51 | only that user's state changes, to the pruned list with the new time, or to a lock and an empty list |
| `Lockout.Lockout.IsLocked` | dashboard/auth/lockout.go:53-64 | locked exactly when now is before the stored time; unknown users are not locked |
| `Lockout.Lockout.Reset` | dashboard/auth/lockout.go:66-70 | forgets exactly that user |
| `Lockout.Lockout.LoginPost` | dashboard/handlers/account.go:52-69 | one login that nobody interrupts: a locked user or account changes nothing, a failure is recorded, a success resets |
| `LockoutRuns.StepsRefineLogin` | dashboard/handlers/account.go:52-69 | the check and the finish of a handler, run one after the other, have the effect of that login |
| `Lockout.RefinesHistory` | dashboard/auth/lockout.go:38-50 | the pruned and cleared state is what the whole list of failure times calls for |
| `Lockout.IsLockedFromHistory` | dashboard/auth/lockout.go:30-70 | after any run of Record and Reset, IsLocked answers from the failures since the last Reset and the last lock |
| `LockoutRuns.AnswersAreApplied` | dashboard/handlers/account.go:52-69 | in every interleaving the failures are recorded and the successes reset, exactly those and in order; a store that reports a lock changes nothing |
| `LockoutRuns.CheckPassesIff` | dashboard/handlers/account.go:52-55 | in every interleaving a handler passes the check if and only if no lock that follows from the user's failures is running |
| `Lockout.StoredFailures` | dashboard/auth/lockout.go:40-50 | stored failures are sorted, inside the window, end with the newest and are fewer than the threshold |
| `LockoutRuns.FailureRate` | dashboard/handlers/account.go:52-69 | in every interleaving of m handlers, with a lock of at least a window, every interval of one window has at most max(threshold, 1) + m - 1 failures of a user since its last success |
| `LockoutRuns.RateIsReached` | dashboard/handlers/account.go:52-69 | the bound is tight for every configuration and number of handlers: a run that reaches it |
| `LockoutRuns.ShortLockExceeds` | dashboard/auth/lockout.go:47-50 | with a shorter lock some run has one failure more |
| `LockoutRuns.RateBoundIffLongLock` | dashboard/auth/lockout.go:30-64 | for every number of handlers, all runs keep that bound if and only if the lock lasts at least a window |
| `LockoutRuns.ThresholdKeptIff` | dashboard/handlers/account.go:52-69 | no run exceeds max(threshold, 1) itself if and only if the lock lasts at least a window and there is one handler |
| `Pagination.ParsePage` | rest/pagination.go:19-32 | page at least 1 and size 1 to 500; valid values are kept, others become 1, 25 or 500 |
| `Pagination.PaginationCorrectIff` | rest/pagination.go:34-44 | the slice is the expected page if and only if the offset fits an int64 or its wrapped value lies past the end |
| `Pagination.LargestPagePanics` | rest/pagination.go:34-44 | the largest page of size 500 makes the slice expression panic on every list |
| `ClusterLists.PickIsFirst` | cluster/rest/sessions.go:55-61 | the chosen row is the first one, or for sessions the first online one if there is any |
| `ClusterLists.NodeList` | rest/clients_list.go:26-40 | a node's listing is exactly its matching rows, each key once, in key order |
| `ClusterLists.NodeSessions` | rest/sessions.go:30-75 | the sessions listing is exactly the clients and the stored sessions not connected, as far as the online parameter asks for them, in order |
| `ClusterLists.MemberList` | rest/clients_list.go:22-49 | for every filter and page: the total is the length of the node's listing, and the items are that page of it if and only if the offset does not wrap into the list |
| `ClusterLists.MergeItems` | cluster/rest/clients_list.go:59-66 | the inner loop keeps one row per key, the first, labelled with the member |
| `ClusterLists.FilterAndSort` | cluster/rest/clients_list.go:69-80 | the merged rows filtered in place and sorted are exactly the matching ones, in key order |
| `ClusterLists.MergeAll` | cluster/rest/clients_list.go:48-80 | the merged list is strictly sorted and has, for each matching key that arrived, the first row in member order |
| `ClusterLists.ClusterList` | cluster/rest/clients_list.go:38-82 | total and items are the length and the page of that merged list |
| `ClusterLists.ClusterSessions` | cluster/rest/sessions.go:34-70 | the same with the online-preferring choice |
| `ClusterLists.SessionRow` | cluster/rest/sessions.go:45-69 | every received client id is listed exactly once, with its first online row if any, else its first row |
| `ClusterLists.MergedIsUnique` | cluster/rest/subscriptions_list.go:41-69 | rows, policy and filter determine the merged list, also for the two-part key |
| `ClusterLists.TopRowsSurvive` | cluster/rest/aggregate.go:21-25 | merging lists cut to k rows and merging the whole lists agree on the first k rows |
| `ClusterPages.PagesWithinLimitAreExact` | cluster/rest/aggregate.go:30-40 | a page within the first 500 rows is the page of the merge of the whole lists |
| `ClusterPages.RowsBeyondLimitAreLost` | cluster/rest/aggregate.go:21-25 | one member with enough rows already spoils a page that reaches beyond what it sends |
| `ClusterPages.PageExactIff` | cluster/rest/aggregate.go:21-40 | page p is exact in every cluster if and only if its offset plus its size is at most 500 |
| `ClusterPages.TotalExactIff` | cluster/rest/aggregate.go:30-40 | the total is the length of the uncut merge if and only if every row beyond a member's limit is sent by another member |
| `ClusterPages.TotalExactForSizesIff` | cluster/rest/aggregate.go:21-40 | for given list sizes of the members, the total is right in every cluster if and only if none exceeds 500 |
| `ClusterPages.ClusterPage` | cluster/rest/clients_list.go:38-82 | members and cluster together: the page equals that of the uncut merge of everything the answering members hold |
| `SessionPages.ClusterSessionsPage` | cluster/rest/sessions.go:34-70 | nodes with clients and stored sessions, their listings for the online parameter, and the online-preferring merge together: the page equals that of the uncut merge |
| `SessionPages.MergeByState` | cluster/rest/sessions.go:26-33 | filtering by state before the merge equals filtering after it: always for online, for offline if and only if no client has rows in both states |
| `SessionPages.OnlineParameterIff` | cluster/rest/sessions.go:26-70 | the online=true list is the online part of the list without the parameter; the online=false list is its offline part if and only if no client connected at one node is stored at another where it is not connected |
| `Secret.CallersAgree` | dashboard/auth/secret_redis.go:24-45 | in every interleaving successful callers return the same bytes: the initial value or the one winner's |
| `Secret.LostRaceFindsWinner` | dashboard/auth/secret_redis.go:44-45 | in every interleaving the read after a lost race finds a value |
| `Secret.SecretIsStable` | dashboard/auth/secret_redis.go:36-45 | a stored secret is never replaced |
| `Secret.FailureIsOwn` | dashboard/auth/secret_redis.go:15-45 | in every interleaving a caller gets an error if and only if one of its own steps failed |
| `Secret.StepSucceeds` | dashboard/auth/secret_redis.go:24-45 | a read of an existing key returns it, the SETNX that writes the key returns the caller's own bytes, a lost one leads to the second read; nobody else moves |
| `Secret.CallerReturns` | dashboard/auth/secret_redis.go:24-45 | in every interleaving a caller that has taken its four steps without a failure of its own has returned what is stored |
| `Secret.EnsureAlone` | dashboard/auth/secret_redis.go:24-45 | without interruption: the stored key, or the caller's own bytes, stored by it |
| `Credentials.FollowsEdited` | dashboard/auth/credstore_redis.go:94-208 | each edit sets exactly the fields it is about: password, times, flags, counter, lock or role |
| `RedisStore.RecordsAreHistory` | dashboard/auth/credstore_redis.go:94-232 | in every interleaving the users are those created last and not deleted, and every field of a record is what the last commit that sets it made it |
| `RedisStore.NoLostUpdate` | dashboard/auth/credstore_redis.go:192-232 | in every interleaving FailedAttempts is the number of increments committed since the last reset, password change or creation |
| `RedisStore.CommitIsAtomic` | dashboard/auth/credstore_redis.go:210-232 | a commit applies the edit to the record as it is at that moment, changes no other, and brings no deleted user back |
| `RedisStore.ExecCommitsIff` | dashboard/auth/credstore_redis.go:210-232 | in every interleaving EXEC commits if and only if nothing was committed since its WATCH |
| `RedisStore.ClientsGoOn` | dashboard/auth/credstore_redis.go:108-232 | what a client has begun it goes on with, whatever others committed: the deletion deletes, the creation writes, the transaction reads the current record |
| `RedisStore.MutateAlone` | dashboard/auth/credstore_redis.go:210-232 | a transaction that nobody interrupts commits its edit if the user exists |
| `RedisStore.CreateAlone` | dashboard/auth/credstore_redis.go:108-131 | without interruption a free name gets the new record, a taken one stays |
| `RedisStore.DeleteAlone` | dashboard/auth/credstore_redis.go:133-155 | without interruption a user goes if and only if another admin remains or it is none |
| `RedisStore.ToggleAlone` | dashboard/handlers/users.go:100-144 | without interruption the role is flipped, unless it is the last admin's |
| `RedisStore.CreationReplacesIff` | dashboard/auth/credstore_redis.go:108-131 | in every interleaving a creation replaces a record if and only if the last creation or deletion of its name since its check was a creation |
| `RedisStore.NoReplacementIffOneClient` | dashboard/auth/credstore_redis.go:108-131 | from any users, no run replaces a record if and only if there is at most one client |
| `RedisStore.CreationsCanOverlap` | dashboard/auth/credstore_redis.go:108-131 | from any users and for any free name, a run of two clients in which both creations succeed and the second replaces the first |
| `RedisStore.Seeded` | dashboard/auth/credstore_redis.go:41-74 | in every interleaving seeding leaves its admin in place; as the only user if and only if no other name was created, and not deleted again, since the store was found empty |
| `RedisStore.AlwaysAnAdmin` | dashboard/auth/credstore_redis.go:133-155 | with one client, once there is an admin every continuation of the run has one |
| `RedisStore.AdminsCanBeLost` | dashboard/auth/credstore_redis.go:133-155 | from any reachable state with an admin and two idle clients, a run in which every deletion passes its guard and no admin is left |
| `RedisStore.AdminKeptIffOneClient` | dashboard/handlers/users.go:100-144 | from any users with an admin, the guards of deletion and toggling keep one in every run if and only if there is at most one client |
| `FileStore.FileStore.Seed` | dashboard/auth/credstore_file.go:53-87 | an empty store gets one admin; any other is left alone |
| `FileStore.FileStore.CreateUser` | dashboard/auth/credstore_file.go:136-158 | appends a new user, or reports that the name exists and changes nothing |
| `FileStore.Compact` | dashboard/auth/credstore_file.go:173-182 | the aliasing in-place loop leaves the other users in order, and refuses exactly for the only admin |
| `FileStore.FileStore.DeleteUser` | dashboard/auth/credstore_file.go:160-187 | saves the compacted list, or reports not found or last admin and changes nothing |
| `FileStore.FileStore.Mutate` | dashboard/auth/credstore_file.go:231-245 | edits the first user with the name and nobody else |
| `FileStore.FileStore.SetRole` | dashboard/auth/credstore_file.go:210-215 | rejects an invalid role, otherwise edits the role |
| `FileStore.UsersToggleRole` | dashboard/handlers/users.go:102-144 | flips the role; a missing user or the last admin changes nothing |
| `FileStore.RemovedIsSound` | dashboard/auth/credstore_file.go:160-187 | with unique names deletion cuts out exactly the named user, each error arises exactly when it should, and an admin remains |
| `FileStore.ToggledIsSound` | dashboard/handlers/users.go:116-141 | toggling keeps unique names and an admin |
| `FileStore.AlwaysAnAdmin` | dashboard/handlers/users.go:49-144 | once seeded, every serialised run of requests keeps names unique and at least one admin |
| `FileStoreRuns.RecordsAreHistory` | dashboard/auth/credstore_file.go:120-230 | in every interleaving names stay unique, the users are those created last and not deleted, and every field is what the last write that sets it made it |
| `FileStoreRuns.StepsRefineToggle` | dashboard/handlers/users.go:100-144 | listing and setting without interruption is the sequential toggle |
| `FileStoreRuns.HandlersServe` | dashboard/handlers/users.go:49-144 | a request is served and a decided role set at any time, and exactly the writes that took place are logged |
| `FileStoreRuns.TogglesCanOverlap` | dashboard/handlers/users.go:109-141 | with two admins, a run of two toggles that leaves none |
| `FileStoreRuns.SoundIffOneHandler` | dashboard/handlers/users.go:49-144 | over all sound lists and interleavings, names stay unique and an admin stays if and only if there is at most one handler |
| `Base64.DecodeEncoded` | mqttauth/file.go:265-274 | decoding undoes encoding for every tail length |
| `Base64.DecodesIff` | mqttauth/file.go:273-277 | a text decodes to given bytes if and only if it is their encoding up to line breaks and the spare bits of the tail |
| `Base64.OneByteMore` | mqttauth/file.go:273-277 | a line break anywhere changes nothing for the decoder, any other byte outside the alphabet makes it fail |
| `Base64.SymbolIsInAlphabet` | mqttauth/file.go:270 | the characters are A-Z, a-z, 0-9, - and _ in this order |
| `Base64.SextetsHaveTheBits` | mqttauth/file.go:270 | every three bytes give the four sextets with the same 24 bits, and a tail is filled up with zero bits |
| `AclStore.IdIsEncoded` | mqttauth/file.go:263-271 | an id is the encoding of the subject, the byte 31 and the topic |
| `AclStore.IdRoundTripIff` | mqttauth/file.go:263-283 | an id decodes to its subject and topic if and only if the subject has no separator byte |
| `AclStore.FileBackend.PutUser` | mqttauth/file.go:139-161 | fails exactly for an empty subject or a new user without password, changing nothing; otherwise no rule, no other record and no list changes, and an empty password keeps the stored hash |
| `AclStore.FileBackend.DeleteUser` | mqttauth/file.go:163-175 | not found exactly for an unknown subject; otherwise that user and exactly its rules go, everything else stays |
| `AclStore.FileBackend.PutRule` | mqttauth/file.go:211-234 | each error arises exactly when it should and changes nothing; otherwise the plain map from subject and topic to access gets one entry, nothing but that user's rules differs, and the id is returned |
| `AclStore.FileBackend.DeleteRule` | mqttauth/file.go:236-257 | invalid and not found arise exactly when they should and change nothing; otherwise the plain map loses exactly the decoded entry |
| `AclStore.DeleteByIdIff` | mqttauth/file.go:236-283 | the id of a stored rule deletes that rule alone if and only if its subject has no separator byte |
| `AclStore.PutThenDelete` | mqttauth/file.go:211-257 | the returned id removes the rule again and touches nothing else; the ledger is as before the put if and only if the rule was not there before |
| `AclStore.SharedId` | mqttauth/file.go:265-283 | a subject with a separator has the ids of the subject before the separator |
| `AclStore.WrongRuleIsDeleted` | mqttauth/file.go:139-257 | such a subject is accepted for a user and a rule, and deleting by the returned id deletes the other user's rule instead |
| `AclStore.RunsAreMeantIff` | mqttauth/file.go:139-257 | from any ledger, all runs of calls leave the users and rules that the calls alone amount to, if and only if no subject whose rules are dropped has a separator byte |
| `AclStore.FileBackend.Rules` | mqttauth/file.go:177-209 | exactly the stored rules of the subject or of everyone, each once, in order, with their ids |
| `AclStore.ListedIdDeletesIff` | mqttauth/file.go:177-257 | a listed id deletes its row if and only if the subject has no separator byte |
| `Session.VerifySigned` | dashboard/auth/session.go:28-65 | a signed cookie verifies to its payload until it expires, then reports expiry |
| `Session.OtherSecret` | dashboard/auth/session.go:44-52 | another secret reports a bad MAC if and only if its MAC differs |
| `Session.AcceptsExactlyAuthentic` | dashboard/auth/session.go:39-65 | a cookie is accepted if and only if it is text, dot and a MAC of that text, decodes to the payload and has not expired |
| `Session.ErrorsAreExact` | dashboard/auth/session.go:39-65 | each error arises exactly when it should: no dot or undecodable parts, a MAC that differs, or expiry |
| `Session.AcceptedVariants` | dashboard/auth/session.go:44-65 | with the signed text, exactly the MAC parts equal to the signed one up to line breaks and spare bits give the signed cookie's answer |

## Left out

- Subscriber counts and the 64-bit counters of the hub are unbounded integers; only page offsets wrap.
- A peer answer with a null child in its JSON: the code would dereference a nil pointer, the model's answers are trees.
- HTTP, Redis, SQL and file I/O errors beyond the ones named above, JSON and YAML encoding, timeouts.
- bcrypt, HMAC-SHA256 and random generation themselves.
- The concrete case-insensitive substring filter: members filter by any predicate on the row, the cluster by any predicate on the key that passes what the members send.
- Node restarts in the SSE model, and the bridge's start and stop.
- Hub.Hub.Publish: no receiver waits, so a channel of size 0 drops everything; sends to waiting receivers are steps of HubRuns.
- Lockout.Lockout.LoginPost: nothing comes between the check and the record; LockoutRuns lets other handlers run there.
- Rejected session cookies are not told apart further than the error returned.
- SQL and Redis MQTT-auth backends, regular-expression ACL pages, the broker's own topic matching.
- cluster/rest/retained.go and dashboard/handlers/topics.go repeat the clients merge and the trie insertion.
- `broadcastDelete`, configuration loading, `sanitizeNext`, templates, charts and deployment files: one-branch logic or user interface.
