# Pazpar2: a model of its record lists, worker pool, HTTP channel and target sessions

Pazpar2 is a metasearch server. It sends one query to many targets, merges the records that
come back into clusters, and shows the clusters to a browser over HTTP. This project models
the parts of it that carry state from one event to the next, and proves what they keep:

- **Record clusters** (`src/reclists.c`). A record carries merge keys. A chained hash table
  leads from keys to clusters; a record joins the cluster of its first key or starts one, and
  its other keys merge clusters on the fly, redirecting the entries of the merged-away
  cluster in place. The hash is an arbitrary function, so everything holds for any
  collisions. `ClusterIndex` says what each step computes on values, `Reclist` holds the
  classes and loops that compute it in place, and the other `Cluster*` and `Reclist*`
  modules say what it means.
- **Worker pool and event loop** (`src/sel_thread.c`, `src/eventl.c`). Any number of workers,
  two queues, a condition variable and a pipe, and the loop that hands channels to the pool
  and frees them, as interleaved steps (`SelThread`, `EventLoop`, `EventRounds`), with the
  critical sections and the loops of one round as methods (`SelThread`, `IochanMan`).
- **HTTP** (`src/http.c`). The chain of network buffers, the scanner that finds the end of a
  request, the loop that cuts requests off the queue, the parser and the serializer
  (`HttpQueue`, `HttpFraming`, `HttpBlocked`, `HttpHead`, `HttpLength`, `HttpChannel`,
  `HttpRequest`, `HttpPipeline`; HTTP/1.1 messages, sections 2.2, 3, 5 and 6.3 of RFC 9112).
- **Targets** (`src/settings.c`, `src/session.c`, `src/client.c`, `src/connection.c`,
  `src/relevance.c`). Precedence of settings, merging of metadata, who keeps a client alive,
  the counts of a client's records, and the fit of native scores (`Settings`, `Metadata`,
  `Ownership`, `Counters`; `ScoreFit` over reals, and `ScoreSearch` over the values of
  `FloatNumbers`, infinities and non-numbers included).

## Where the code does not do what one would expect

- *Clusters are not always the connected components of "shares a merge key".* A record that
  joins a cluster does not register its other keys with it (`src/reclists.c:552-559`).
  Soundness holds for every run. While clusters and components agree, an accepted insertion
  keeps them so exactly when every cluster with a record that carries one of the new keys
  registers one of them (`ClusterLinks.ExactExactly`). The stronger state in which
  all keys of all records are registered is kept exactly when a record whose first key is
  registered has only registered keys (`ClusterLinks.CoveredExactly`); from a state without
  it one more record makes clusters and components differ (`ClusterLinks.UncoveredBreaks`),
  and `ClusterLinks.LooseInputsBreak` is a run of three records that ends so.
- *A merged-away cluster can stay in the table.* The same keys leave entries in buckets where
  nothing redirects them. An accepted insertion keeps merged-away clusters out of reach
  exactly when no cluster that registers one of the new keys, but not the first, has an entry
  out of place (`ClusterStale.OnlyLiveExactly`), and `ClusterStale.StaleRun` is a run of three
  records that leaves one in reach whenever two keys fall into different buckets. In a tidy
  table, with every entry in the bucket of a key its cluster registers, a list that is made
  anew shows live clusters only; when an insertion keeps the table tidy is stated exactly too
  (`ClusterStale.TidyExactly`).
- *Ranking can meet a cluster without the buffers it writes to.* `relevance_prepare_read`
  writes to the explanation buffers of every listed cluster (`src/relevance.c:648-656`), and
  a merge takes them from the cluster it merges away. A list made anew has them for all its
  clusters exactly when no reachable merged-away cluster passes the limit
  (`ReclistPrepare.ExplainedExactly`); `ReclistPrepare.ListsMergedAway` makes a list that has
  not.
- *A merged-away cluster can be shown from a tidy table.* Showing one record lists lazily
  (`src/session.c:1350-1374`), and only a new cluster drops the list
  (`src/reclists.c:477-478`); a merge does not. After an insertion a kept list holds a
  merged-away cluster exactly when it did before, or the record was accepted and a listed
  cluster registers one of its keys, but not the first (`ReclistKept.ShowAfterInsert`), and
  `ReclistKept.ShowsMergedAway` is such a run for every hash function.
- *The order of retrieval need not be the order of creation.* A cluster's retrieval position
  is `num_records` at its creation (`src/reclists.c:458`), which `reclist_limit` sets anew.
  An insertion keeps the two orders the same exactly when it makes no cluster, or
  `num_records` is above the position of the last one (`ReclistOrder.InsertInOrder`). While
  nothing is listed the position is the number of the cluster (`ReclistOrder.InsertAll`), and
  after a lazy listing the second cluster can have the position of the first
  (`ReclistOrder.TiedPositions`).
- *`num_records` is zero after a lazy `reclist_limit` that keeps its list* and is not
  lowered by merging; the contract of `Reclist.Reclist.Limit` says which case gives what.
- *A connection can be blocked for good.* The bytes received are such that no continuation
  makes any request be cut exactly when they start with a line end, or the scanner's window
  is fixed (it is full, at 4095 bytes, or has a NUL) and what it shows up to the first NUL is
  a run of whole lines, none of them empty (`HttpBlocked.BlockedExactly`). A line end first
  makes the check answer one or two, at which the cutting loop stops
  (`src/http.c:927-928`). In a fixed window that ends between two lines the check answers
  zero for ever: the answer for a header that is too long is given only inside a line
  (`src/http.c:344-350`). `HttpBlocked.FullWindowBlocks` is such an input of 1365 header
  lines, and `HttpBlocked.NulBlocks` a NUL ahead of anything.
- *The fit does not always move when a neighbour is better:* a round stays where it is
  exactly when no neighbour is better or the better ones of both axes tie
  (`ScoreFit.StaysExactly`, with an instance in `ScoreFit.TieStays`), although the comment
  there says that the present factors are the best so far. And a least score of zero makes
  `b` and its step zero for good, so that the early exit is never taken and all 1000 rounds
  are run; this is sufficient only, for other searches may fail to settle too.
- *The fit divides by zero* exactly when the best score is zero and no other is as much as a
  millionth below it (`ScoreSearch.NormClient.ZeroRangeExactly`). The factors are then
  infinite or not a number from the start, and the search runs all its rounds without moving
  (`ScoreSearch.LostStays`).
- *The bound on a client's counts rests on the order of events.* The code itself does not
  check that a search is answered before its records; ZOOM reports them in that order, so
  this failure is hypothetical. An answer keeps the bound exactly when no more records are
  lost than the search skips at its start (`Counters.NextBounded`); without the order the
  estimated hits could fall below zero (`Counters.LateAnswer`).

## Model

| member | source | states |
|---|---|---|
| ClusterInvariant.MergeKeeps | src/reclists.c:408-444 | merging two live clusters keeps the whole index invariant for any hash: disjoint keys, each registered key found in its own bucket, no dead cluster in the bucket of one of its keys, distinct identifiers |
| ClusterInvariant.NewClusterKeeps | src/reclists.c:446-480 | a new cluster keeps the invariant, its keys pending until they are put into their buckets |
| ClusterInvariant.NewClusterIds | src/reclists.c:446-480 | the identifier of a new cluster differs from those of all clusters ever created |
| ClusterInvariant.AppendKeysMeaning | src/reclists.c:54-71 | appending merge keys gives the union of both lists, in order and without repeats |
| ClusterInvariant.WalkMeaning | src/reclists.c:503-551 | the walk over a bucket merges the one other cluster that registers the key, or changes nothing, and says truly whether the key was found |
| ClusterInsert.KeyPassMeaning | src/reclists.c:499-560 | handling one key of a record keeps the invariant and takes over exactly the clusters that register it |
| ClusterInsert.PassesMeaning | src/reclists.c:499-560 | handling all remaining keys takes over exactly the clusters that register any of them and ends in the invariant |
| ClusterInsert.InsertMeaning | src/reclists.c:483-563 | an accepted record goes to the live cluster of its first key or to a new one, which takes over every other live cluster registering any key; the invariant holds again |
| ClusterInsert.InsertRejects | src/reclists.c:517-530 | a record is rejected exactly when the cluster registering its first key has a record of the same client that the comparison takes for the new one |
| ClusterInsert.AbsorbedBefore | src/reclists.c:499-560 | the clusters merged into the record's own are told before the insertion: those that register one of its keys, but not the first |
| ClusterRepeats.DifferentIsAccepted | src/reclists.c:520-534 | a record is accepted if the cluster of its first key has none of its client, or none that the comparison takes for it |
| ClusterRepeats.AcceptedOnce | src/reclists.c:520-534 | after any run an accepted record that comes again with its first key is rejected and changes nothing, whatever was merged in between |
| ClusterRepeats.TwoEditions | src/reclists.c:520-534 | two different records of one client with one key are both kept, in one cluster |
| ClusterConservation.InsertConserves | src/reclists.c:483-563 | an accepted record is added once, every component of the term-frequency total is unchanged, and exactly the touched clusters stop being live |
| ClusterConservation.MergeTotals | src/relevance.c:583-593 | merging preserves the componentwise term-frequency sum and the record counts over live clusters |
| ClusterConservation.MergeLive | src/reclists.c:408-444 | a merge lowers the number of live clusters by one, as the total follows |
| ClusterLinks.RunIsGood | src/reclists.c:483-563 | after any run of insertions the invariant holds, any two records of a live cluster are linked by a chain of accepted records sharing keys, and live clusters partition the accepted records |
| ClusterLinks.CoveredExactly | src/reclists.c:552-559 | an accepted insertion leaves all keys of all records registered exactly when the record is new or has only registered keys |
| ClusterLinks.ExactExactly | src/reclists.c:483-563 | while clusters are the components, an accepted insertion keeps them so exactly when every live cluster with a record carrying one of the new keys registers one of the new keys |
| ClusterLinks.TogetherIsExact | src/reclists.c:483-563 | clusters are the components exactly when records that share a key are in one cluster |
| ClusterLinks.CoveredIsExact | src/reclists.c:483-563 | when all keys are registered, two records are in one live cluster exactly when they are connected |
| ClusterLinks.GuardedRunIsExact | src/reclists.c:483-563 | after a run that meets the guard at each accepted record, live clusters are exactly the connected components |
| ClusterLinks.SingleKeysAreExact | src/reclists.c:483-563 | records with one key never need the guard |
| ClusterLinks.UncoveredBreaks | src/reclists.c:552-559 | from a state with an unregistered key one more single-key record separates clusters from components |
| ClusterLinks.LooseInputsBreak | src/reclists.c:552-559 | three records for which clusters are not the components, whatever the hash |
| ClusterStale.TidyReachesLive | src/reclists.c:419-429 | if every entry is in the bucket of a key its cluster registers, the table leads to live clusters only |
| ClusterStale.LiveIsReachable | src/reclists.c:260-297 | every live cluster is reachable from the table |
| ClusterTable.InsertTable | src/reclists.c:419-429 | exactly where every bucket leads after an insertion: entries of merged clusters are redirected in the buckets of their own keys only, and each key's bucket leads to the record's cluster |
| ClusterTable.MergeTable | src/reclists.c:419-429 | a merge redirects the entries in the buckets of the merged cluster's own keys, and no others |
| ClusterStale.OnlyLiveExactly | src/reclists.c:483-563 | while only live clusters are reachable, an accepted insertion keeps it so exactly when every cluster that registers one of the keys, but not the first, has its entries in the buckets of its own keys only |
| ClusterStale.TidyExactly | src/reclists.c:483-563 | an accepted insertion keeps the table tidy exactly when the first key is unregistered, or each key falls into the bucket of some key of a cluster that registers one of the record's keys |
| ClusterStale.StaleRun | src/reclists.c:552-559 | three records after which a merged-away cluster is reachable, for every hash that puts two keys into different buckets |
| ClusterStale.InsertTidy | src/reclists.c:483-563 | the guard on known keys is enough for a tidy table to stay tidy |
| ClusterStale.GuardedRunIsTidy | src/reclists.c:483-563 | after a guarded run only live clusters are reachable |
| ClusterStale.UntidyGoesStale | src/reclists.c:552-559 | from an untidy table one more record makes a merged-away cluster reachable |
| ClusterScan.FirstKeyScan | src/reclists.c:503-551 | the one loop over a bucket, for a record without a cluster yet, rejects, joins and walks on, or finds nothing, exactly as the first-key step says |
| ClusterScan.LaterKeyScan | src/reclists.c:503-551 | the same loop for a record with a cluster merges as the later-key step says, and the total follows the number of live clusters |
| ClusterOrder.CompareOnLaws | src/reclists.c:170-250 | each sort parameter orders clusters up to ties: antisymmetric and transitive, in exact arithmetic |
| ClusterOrder.CompareTransitive | src/reclists.c:170-258 | the comparison over any list of parameters is transitive |
| ClusterOrder.StrictTotalOrder | src/reclists.c:170-258 | on clusters with distinct identifiers the comparison is a strict total order for every parameter list |
| ClusterOrder.SortedIsUnique | src/reclists.c:299-330 | two sorted arrangements of the same clusters are the same, so an unstable sort and the bucket order do not show |
| ClusterOrder.LeastPositionIsLeast | src/reclists.c:216-229 | the position compared is the least one of the cluster's records |
| ClusterOrder.StrcmpMeaning | src/reclists.c:188-193 | a text is not after another exactly if it is the start of it or has the smaller character where they first differ |
| Reclist.AppendMergeKeys | src/reclists.c:54-71 | the loop computes the union of keys that the invariant lemmas are about |
| Reclist.Reclist.MergeCluster | src/reclists.c:408-444 | in place: the records of the source after those of the taker, entries of every bucket of a moved key redirected, vectors added, keys united with the old ones first, the source dead; no other field of any cluster changes |
| Reclist.Reclist.CreateCluster | src/reclists.c:446-480 | a fresh cluster with the record, its keys and the first of them as identifier; `num_records` rises and the sorted list is dropped |
| Reclist.Reclist.WalkBucket | src/reclists.c:503-551 | the loop over one bucket while merges redirect that very bucket computes the specified walk, and the cluster found is never a dead one |
| Reclist.Reclist.InsertRecord | src/reclists.c:483-563 | the whole insertion on the heap is the specified one; null exactly if a live cluster with the first key has a record of the same client that the comparison takes for the new one, and then nothing changes; the total changes by exactly the change in live clusters; a cluster that is made has `num_records` as its retrieval position; the sorted list is dropped exactly then, and its links are never changed |
| Reclist.Reclist.Limit | src/reclists.c:260-297 | not lazy: a terminated list of exactly the chosen clusters with `num_records` its length; lazy with a list: list kept and `num_records` zero |
| Reclist.Reclist.Sort | src/reclists.c:170-330 | the relinked list is a permutation of the old one, without repeats, in which each cluster may stand before the later ones by relevance, retrieval, text in dictionary order, date (undated last), least position or number, in the direction asked for; later parameters decide ties and in the end the identifiers ascend; the read position is its head, and the clusters and the table are as before |
| Reclist.ShownIsUpTo | src/reclists.c:170-258 | the comparison of two clusters is not positive exactly when the first may stand before the second by their fields |
| Reclist.Reclist.ReadRecord | src/reclists.c:332-342 | reading gives the listed clusters one by one and then null |
| ReclistListing.ListingMeaning | src/reclists.c:260-297 | the list has, once each, exactly the clusters that are reachable and pass the limit, in however many buckets they are |
| ReclistListing.TidyListing | src/reclists.c:260-297 | from a tidy table a list made anew shows exactly the live clusters that pass |
| ReclistListing.ListingSortable | src/reclists.c:299-330 | whatever is listed meets what the sort needs: distinct identifiers and a record each |
| ReclistKept.ListedDies | src/reclists.c:408-444 | after an accepted insertion some listed cluster is merged away exactly when one was before, or one registers some of the record's keys but not the first |
| ReclistKept.ShowAfterInsert | src/session.c:1350-1374 | an insertion and a lazy listing: made anew after a new cluster, otherwise kept, and then with a merged-away cluster exactly when it had one before, or the record was accepted and a listed cluster registers some of its keys but not the first |
| ReclistKept.ListAll | src/session.c:1450-1470 | from a tidy table a listing that is sorted has exactly the live clusters |
| ReclistKept.ShowsMergedAway | src/session.c:1350-1374 | a run that shows a merged-away cluster from a tidy table, for every hash and every sort order |
| ReclistPrepare.ExplainedExactly | src/relevance.c:628-705 | a list made anew has the explanation buffers of all its clusters exactly when no reachable merged-away cluster passes the limit |
| ReclistPrepare.UnlimitedExplained | src/relevance.c:628-705 | without a limit exactly when the table leads to live clusters only |
| ReclistPrepare.ListsMergedAway | src/relevance.c:648-656 | three insertions and a listing on the heap that has a cluster without buffers, whenever two keys fall into different buckets |
| ReclistOrder.OneMoreInOrder | src/reclists.c:446-480 | a further cluster keeps retrieval in order of creation exactly when its position is above the last one |
| ReclistOrder.InsertInOrder | src/reclists.c:446-480 | an insertion keeps retrieval in order of creation exactly when it makes no cluster, or `num_records` is above the position of the last cluster |
| ReclistOrder.InsertAll | src/reclists.c:446-480 | in a run without listings each cluster's position is its number of creation |
| ReclistOrder.TiedPositions | src/reclists.c:260-297 | a run with a lazy listing in which two live clusters have the same position |
| SelThread.StepWakeup | src/sel_thread.c:91-107 | no lost wakeup: if a worker sleeps unsignalled, the input queue is no longer than the number of workers on their way to test it, at every step and with spurious wakeups |
| SelThread.StepBytes | src/sel_thread.c:112-123 | bytes in the pipe plus workers about to write equal the output queue plus a reader in the middle of its read |
| SelThread.StepBalanced | src/sel_thread.c:83-127 | each added item is in exactly one place, as often as it was added |
| SelThread.StepFifo | src/sel_thread.c:44-56 | items leave the input queue in the order they were added |
| SelThread.StepInv | src/sel_thread.c:83-255 | every step of any worker or caller keeps the pool invariant |
| SelThread.EveryRun | src/sel_thread.c:83-255 | from the start, with any number of workers, the invariant holds after every run |
| SelThread.WorkIsPickedUp | src/sel_thread.c:91-107 | with an item queued and a worker asleep, some worker is on its way to the queue |
| SelThread.ResultIsAnnounced | src/sel_thread.c:112-123 | a finished item has a byte in the pipe or a worker about to write one |
| SelThread.ReaderIsReleased | src/sel_thread.c:230-255 | a reader that blocks while holding the mutex can always be released by a step that needs no mutex |
| SelThread.ShutdownBalance | src/sel_thread.c:182-203 | after shutdown each item was returned or passed to the destroyer, as often as it was added |
| SelThread.StoppedRun | src/sel_thread.c:97-100 | once stopping, no worker takes another item, and workers take exactly the steps left to finish, write and leave |
| SelThread.StoppedProgress | src/sel_thread.c:182-191 | a stopping pool with a worker left is never stuck |
| SelThread.EveryOneWorkerRun | src/sel_thread.c:83-127 | with one worker the results of every run come back in the order added |
| SelThread.QueueRemoveLast | src/sel_thread.c:44-56 | gives the oldest item and leaves the rest in order, or nothing from an empty queue |
| SelThread.SelThreadPool.AddItem | src/sel_thread.c:205-228 | the critical section is the add step of the protocol |
| SelThread.SelThreadPool.TakeItem | src/sel_thread.c:90-110 | the critical section is the test step: leave, wait, or take the oldest item |
| SelThread.SelThreadPool.PutBackItem | src/sel_thread.c:112-116 | the critical section is the put-back step |
| SelThread.SelThreadPool.StopWorkers | src/sel_thread.c:182-188 | the critical section is the stop step, which wakes every sleeper |
| SelThread.SelThreadPool.TakeResultItem | src/sel_thread.c:230-240 | nothing if there is no result, otherwise the oldest one, with the mutex still held |
| EventLoop.LoopStepInv | src/eventl.c:262-431 | every step of loop, workers and adders keeps: `thread_users` is the number of the channel's items in the pool and at most one, and the walks stay on allocated channels |
| EventLoop.EveryRun | src/eventl.c:262-431 | the same after every run from the start, with any channels and workers |
| EventLoop.FreedIsUnused | src/eventl.c:418-428 | a channel is freed only when nothing in the pool refers to it |
| EventLoop.OneHandlerAtATime | src/eventl.c:248-260 | no two workers run one channel's handler at once |
| EventLoop.NoUseAfterFree | src/eventl.c:333-351 | a channel being handled or handed back is allocated and has one user |
| EventLoop.FiresFromOwnSlot | src/eventl.c:359-395 | while events are fired the slot a channel remembers is its own |
| EventLoop.SlotCountAgrees | src/eventl.c:275-318 | the slots filled are as many as counted, whatever channels were added in between |
| EventRounds.PollDrains | src/eventl.c:320-351 | results are taken exactly if the poll finds a byte in the pipe |
| EventRounds.FireAdds | src/eventl.c:362-416 | a channel visited goes to the pool exactly if it has an event to fire and is neither destroyed nor in use |
| EventRounds.WalkVisitsAll | src/eventl.c:359-416 | however other threads step in between, the walk visits every channel that was there when it began |
| EventRounds.MarkedIsNotFired | src/eventl.c:201-207 | once marked destroyed, a channel is not handed to a worker again in any run |
| EventRounds.FreedWasMarked | src/eventl.c:201-207 | in every run from the start only channels that were marked are freed |
| EventRounds.ReapFreesAll | src/eventl.c:418-428 | when the freeing walk ends, every channel that was destroyed and out of use before it is gone, nothing else is gone but what was out of use and marked meanwhile, and the others keep their order |
| EventRounds.LoopProgress | src/eventl.c:262-431 | the loop thread can always take a step, or a worker can write the byte it waits for |
| EventRounds.EndsWithoutChannels | src/eventl.c:431 | the loop ends exactly where a round ends without channels |
| IochanMan.IochanMan.Add | src/eventl.c:173-199 | a channel is refused exactly when the number of channels with a descriptor reaches the limit less the slack, and otherwise becomes the head of the list |
| IochanMan.IochanMan.FillSlots | src/eventl.c:284-318 | the pipe has slot 0 and each channel the slot after its place, which asks for its descriptor and events exactly if it is not in use, has a descriptor and wants some event; the poll waits 300 seconds or, if less, the least idle limit of a channel not in use |
| IochanMan.IochanMan.FireAll | src/eventl.c:359-416 | with slots so filled, a channel is handed over exactly if it is neither destroyed nor in use, is overdue or ready in its own slot, and is not a target's socket behind another; its event tells the timeout and the answer of its slot; it has one more user; every channel with an event has its time noted; no other count or time changes |
| IochanMan.FiredMeaning | src/eventl.c:402-416 | chosen are all events that are not of a target's socket, and of those sockets the first |
| IochanMan.FiredIsEventful | src/eventl.c:376-416 | the positions chosen are those of the channels with an event in their own slots, less the target sockets that wait |
| IochanMan.OneSocketFires | src/eventl.c:402-416 | at most one target socket without a timeout fires in a round |
| IochanMan.IochanMan.Reap | src/eventl.c:418-428 | frees exactly the channels that are destroyed and have no user, the others staying in order |
| HttpQueue.ByBuf | src/http.c:148-166 | the chain holds exactly the bytes, in fresh non-empty buffers of at most 4096 |
| HttpQueue.Queue.Enqueue | src/http.c:169-174 | the queue then stands for its bytes followed by the new ones |
| HttpQueue.Queue.Peek | src/http.c:184-197 | peeking gives the first bytes of the one byte sequence, as many as asked for or all, whatever the buffers |
| HttpQueue.Queue.Size | src/http.c:199-205 | the size is the length of that sequence |
| HttpQueue.Queue.Read | src/http.c:208-234 | reading gives the first bytes and leaves the others, across buffers |
| HttpFraming.PackageCheck | src/http.c:334-374 | the loop computes the recursive scan that the lemmas are about |
| HttpHead.CheckMeaning | src/http.c:334-385 | of the first 4095 bytes, up to a NUL, the first empty line ends the head; the answer is head and declared length once so much has come, otherwise 0; without an empty line it is 4095 for a full window that ends inside a line and otherwise 0 |
| HttpHead.CheckCases | src/http.c:334-385 | one of these cases holds of any bytes |
| HttpLength.LengthIsNumber | src/http.c:359-371 | a Content-Length line, in any case of its letters, stands for the number written in decimal after spaces and zeros |
| HttpLength.LengthWithoutNumber | src/http.c:359-371 | without a number it stands for zero |
| HttpLength.OtherLine | src/http.c:359-371 | any other line leaves the length alone |
| HttpFraming.FindMeaning | src/http.c:319-331 | the search for a line end finds the first one or there is none |
| HttpFraming.CheckIsStable | src/http.c:334-385 | a positive answer is within the bytes received and the same for every extension of them |
| HttpFraming.CutKeepsBytes | src/http.c:922-972 | cut requests and rest together are the bytes received |
| HttpFraming.CutAppend | src/http.c:922-972 | cutting now and again when more comes is cutting everything at once |
| HttpFraming.FragmentationIndependence | src/http.c:889-972 | the requests cut depend only on the bytes, not on how they were split |
| HttpFraming.LineEndAnswer | src/http.c:334-385 | the check answers one or two exactly for bytes that start with a line end |
| HttpFraming.LineEndSticks | src/http.c:927-928 | one way to be blocked: after a line end first, every sequence of fragments leaves nothing cut and all bytes in the queue |
| HttpBlocked.BlockedExactly | src/http.c:334-385 | no continuation of the bytes received makes a request be cut exactly when they start with a line end, or the window is full or holds a NUL and shows only whole lines, none empty |
| HttpBlocked.BlockedStays | src/http.c:889-972 | on a blocked connection nothing is cut, whatever fragments follow |
| HttpBlocked.FullWindowBlocks | src/http.c:339-373 | 1365 header lines of three bytes fill the window without a line end first, and block |
| HttpBlocked.NulBlocks | src/http.c:339-373 | so does a NUL ahead of any bytes |
| HttpChannel.Channel.CheckRequest | src/http.c:377-385 | the check on the buffer queue is the check on the bytes it stands for |
| HttpChannel.Channel.CutRequests | src/http.c:922-972 | what is cut is the start of what can be cut from all bytes ever received, and all of it when the loop stops idle; requests are handed on one at a time, none while the channel is busy, and none after one that failed or is waited for |
| HttpChannel.Channel.Input | src/http.c:889-972 | the same after each new fragment |
| HttpRequest.RoundTrip | src/http.c:474-685 | parsing a serialized well-formed request gives it back, headers reversed |
| HttpRequest.ParsedIsWellFormed | src/http.c:474-613 | every request the parser accepts is well formed |
| HttpRequest.RoundTripExactly | src/http.c:474-685 | the round trip holds exactly for well-formed requests |
| HttpRequest.ForwardedIsSame | src/http.c:661-685 | a parsed request that is forwarded is parsed as the same request, headers reversed |
| HttpRequest.ParseHeaderLines | src/http.c:547-576 | the header loop computes the recursive parse, errors included |
| HttpRequest.SerializeRequest | src/http.c:661-685 | the buffer written is the specified text |
| HttpRequest.WrittenInLines | src/http.c:661-685 | the specified text is the request line, a line for each header in order, an empty line, and the body |
| HttpRequest.ShortRequest | src/http.c:474-545 | a request line without a version is parsed as version 1.0 |
| HttpRequest.SpacedHeader | src/http.c:566-572 | any white space in front of a header's value is dropped |
| HttpPipeline.HeaderDeclares | src/http.c:334-374 | a header line sets the length exactly when its name is Content-Length in any case of letters |
| HttpPipeline.CheckSerialized | src/http.c:334-385 | the scanner finds exactly the serialized request, whatever follows it |
| HttpPipeline.PipelineRoundTrip | src/http.c:922-972 | any number of serialized requests on one connection are cut where they were joined and each parsed back |
| HttpLength.SentRoundTrip | src/http.c:922-972 | the same for requests whose last Content-Length header gives the length of the body in decimal, or that have neither |
| Settings.WalkMeaning | src/settings.c:382-405 | in a slot whose settings of one name are equally good, the walk stops early only with nothing removed, and exactly when the new setting is beaten |
| Settings.ApplyIsWinners | src/settings.c:371-417 | after any sequence of settings a slot holds, newest first, exactly those no setting of the same name beats |
| Settings.KeptExactly | src/settings.c:318-417 | a setting is kept exactly if none of its name has a higher precedence, and none of the same precedence a more specific target: one database before a target that ends with a star, that before one that starts with it; targets of one kind are all kept |
| Settings.KeptInOrder | src/settings.c:371-417 | nothing else is in the slot; what is kept is there as often as it was made, newest first |
| Settings.WinnerExists | src/settings.c:371-417 | for each setting ever made some setting of its name that is at least as good is kept |
| Settings.EarlyStopRemovesNothing | src/settings.c:392-404 | after any history an early stop leaves the slot as it was |
| Settings.WalkSlot | src/settings.c:382-405 | the unlinking loop computes the specified walk |
| Settings.SettingsArray.Expand | src/settings.c:354-369 | room for the offset with ten slots to spare, every slot as before |
| Settings.SettingsArray.UpdateSlot | src/settings.c:371-479 | one slot is updated as specified and no other changes |
| Metadata.OnlineIsBatch | src/session.c:2374-2464 | for every policy and sequence of records, merging as records arrive equals the policy's meaning over all at once |
| Metadata.TakeRange | src/session.c:2446-2464 | a range is the least minimum and the greatest maximum |
| Metadata.TakeUnique | src/session.c:2385-2396 | unique keeps the first value of each norm |
| Metadata.TakeLongest | src/session.c:2397-2439 | longest keeps the first of the longest values |
| Metadata.UniqueByNorm | src/session.c:2385-2396 | over all records, no two kept values have one norm, and a value is kept where its norm first comes |
| Metadata.LongestByNorm | src/session.c:2397-2403 | over all records, the one value kept has the longest norm and is the earliest of such |
| Metadata.OnlineFirst | src/session.c:2376-2384 | first keeps all values of the first record that has any |
| Metadata.Cluster.KeyFollows | src/session.c:2397-2464 | the sort key always reads as the field's present value, a text by its sort form or, if it has none, as displayed; a range shares its data and is widened in place |
| Metadata.Cluster.MergeValue | src/session.c:2374-2464 | one value changes its own field as the policy says and no other |
| Metadata.Cluster.Ingest | src/session.c:2267-2464 | one record's elements are merged against the fields as they were when it arrived |
| Ownership.Session.MutualLinks | src/client.c:1144-1161 | in every reachable state a connection's client is the client exactly when the client's connection is the connection |
| Ownership.Session.FreedWhenBothEnd | src/client.c:1108-1142 | a client is freed exactly when the session no longer caches it and it has no connection |
| Ownership.Session.NothingLeaks | src/session.c:603-626 | with the cache dropped and all connections closed every client is freed |
| Ownership.Session.Select | src/session.c:550-578 | a target's cached client is reused, otherwise a new one is cached; it becomes active |
| Ownership.Session.ResetActive | src/session.c:580-601 | no client is active, and no ownership changes |
| Ownership.Session.RemoveCached | src/session.c:603-626 | each cached client loses one reference and is freed exactly if it has no connection |
| Ownership.Session.Prepare | src/connection.c:471-504 | 2 for a client already connected, 1 with a new connection, 0 on failure with the references as before |
| Ownership.Session.Start | src/client.c:936-970 | a search goes on exactly with a connection, which then has a link |
| Ownership.Session.Handle | src/connection.c:281-321 | a connection is closed exactly if it has lost its client, timed out or is idle, and its client is freed exactly if not cached |
| Ownership.Session.Stop | src/client.c:1176-1194 | a busy client lets go of its connection and stays alive; any other is left alone |
| Ownership.Connection.Destroy | src/connection.c:117-134 | the client loses one reference and its connection, and is freed with the last |
| Ownership.Client.Destroy | src/client.c:1108-1142 | one reference fewer, freed with the last, when there is no connection any more |
| Ownership.Run | src/client.c:1108-1194 | any steps in any order keep the session valid and meet no failing assertion and nothing freed; the targets cached and active are those that the selections, resets and drops among the steps leave |
| Counters.NextBounded | src/client.c:549-578 | every event but an answer keeps filtered and failed records within the offset, and an answer does exactly when no more are lost than skipped |
| Counters.RunBounded | src/client.c:602-742 | in every run with one answer per search, ahead of its records, the bound holds |
| Counters.SearchIsTallied | src/client.c:549-698 | after a search that starts anew and is answered, offset and failure counts are exactly those of the records since, by their fate |
| Counters.ReuseKeepsOffset | src/client.c:732-742 | reingesting ends at the old offset, or at the start if that is later |
| Counters.ApproximationMeaning | src/client.c:1751-1763 | with the bound the estimate is between zero and the hits and the nearest integer, halves up, despite the nested divisions; before any record it is the hits |
| Counters.TruncDivMeaning | src/client.c:1755-1756 | the quotients truncate towards zero: what is left is smaller than the divisor and has the sign of the dividend |
| Counters.LateAnswer | src/client.c:549-578 | were an answer to come after records, the bound would break and the estimate fall below zero |
| Counters.ClientCounters.Reingest | src/client.c:732-742 | the loop recounts the records from the start to the old offset |
| Counters.ClientCounters.StartSearch | src/client.c:936-1046 | counts are cleared, then kept, recounted or reset as the search goes |
| Counters.ClientCounters.SearchResponse | src/client.c:549-578 | an answer sets the offset to the start and the hits to the size; an error only clears the hits |
| Counters.ClientCounters.GetApproximation | src/client.c:1751-1763 | the returned estimate has the meaning above |
| ScoreSearch.SumSquares | src/relevance.c:178-189 | the loop computes the sum of squares, infinities and non-numbers included |
| ScoreFit.SumJoins | src/relevance.c:178-189 | the sum over two lists is the sum of their sums |
| ScoreFit.SumOfOne | src/relevance.c:178-189 | for one record the sum is the square of its distance from one over the position |
| ScoreFit.SumIsZeroExactly | src/relevance.c:178-189 | the sum is zero exactly if every score is mapped to one over the position |
| ScoreFit.RoundImproves | src/relevance.c:243-287 | a round keeps `chi` equal to the sum of squares; it either lowers it or leaves the factors alone |
| ScoreFit.RoundsImprove | src/relevance.c:235-298 | any number of rounds is no worse than the start |
| ScoreFit.OptimumNearA | src/relevance.c:238-239 | if neither neighbour along `a` is better, the best `a` is within one step and at most a quarter of the average rise lower |
| ScoreFit.OptimumNearB | src/relevance.c:240-241 | the same along `b` |
| ScoreFit.ShrinkMeaning | src/relevance.c:271-287 | a round that stays halves the step whose square times the curvature is larger |
| ScoreFit.MovingGrows | src/relevance.c:243-270 | a round that moves takes one step along one axis, to the best of the four neighbours, and makes that step half as long again |
| ScoreFit.SettledMeaning | src/relevance.c:214-295 | the search ends early exactly when each step is less than one percent of its factor |
| ScoreFit.StaysExactly | src/relevance.c:243-272 | a round stays exactly when no neighbour is better or the better ones of both axes tie below `chi` |
| ScoreFit.TieStays | src/relevance.c:243-272 | an instance of such a tie, with both neighbours better |
| ScoreFit.ZeroStays | src/relevance.c:229-232 | a zero `b` with a zero step stays zero and never lets the search settle |
| ScoreSearch.Search | src/relevance.c:235-298 | the loop is the specified rounds, ending at the first settled one or after 1000 |
| ScoreSearch.RoundsOfNumbers | src/relevance.c:235-298 | from numbers the rounds are those over reals, and settle when they do |
| ScoreSearch.LostStays | src/relevance.c:235-298 | a search whose `a` is infinite, with a score of zero among the records, never moves and never settles |
| ScoreSearch.NormClient.Add | src/relevance.c:119-172 | least and greatest score stay those of the records |
| ScoreSearch.NormClient.Normalize | src/relevance.c:209-301 | the stored factors are those of the first settled round or the last one, and no worse than the guess, which maps the least score to 0 and the greatest to 1 unless they are within a millionth; with a least score of zero all 1000 rounds are run; with a range of zero `a` ends infinite and `b` not a finite number after 1000 rounds |
| ScoreSearch.NormClient.ZeroRangeExactly | src/relevance.c:226-229 | when that is: the best score is zero and all are within a millionth of it |

## Left out

- ZOOM, XML and XSLT processing, ICU, sockets, logging and memory pools: what they deliver
  comes in as parameters or as events.
- The hash function and `record_compare`: arbitrary functions.
- Machine integers and floating-point rounding: comparators, Content-Length and counts are
  over unbounded integers, the fit over exact reals with infinities and non-numbers.
- Reclist.Qsort: stands for the C library's `qsort`; only its contract is used.
- Reclist.Reclist.Sort: an order by position is stated for records counted from one, as
  `client_record_ingest` counts them.
- IochanMan.IochanMan.FireAll: when channels are handed over is stated for slots as
  `FillSlots` leaves them; channels added while the loop polls are in EventLoop.
- Reclist: hash chains and record lists are sequences instead of linked cells; the list that
  `reclist_limit` threads through the clusters is a linked one.
- Reclist.Reclist.MergeCluster: in the code the record list of a merged-away cluster shares
  its tail with that of the cluster it was merged into and grows with later joins; here it
  stays as it was at the merge.
- Sort keys of another kind than the field's type count as absent; the service configures
  one kind for each field.
- The limit's verdict on a cluster is an arbitrary function of the cluster, evaluated for
  each entry as the code does.
- The free queue of the pool, which recycles work items, and a null destroyer, with which
  items left at shutdown are just dropped.
- EventLoop: the loop thread is a program counter in a state machine, because its steps
  interleave with those of workers and adders; IochanMan has its loops as methods.
- The event loop without threads.
- Fairness and liveness: a step that can be taken is shown to exist, not that a scheduler
  takes it. Watches of blocked requests are not modelled.
- HttpRequest.RoundTrip: argument decoding and the keep-alive decision are not modelled; they
  do not change the parts compared.
- HttpRequest.RoundTripExactly: header order is compared in reverse, as the parser prepends.
- HttpChannel.Channel.Input: a request that waits behind a response is cut when the next input
  comes; the code also looks at the queue after a response, by way of a read that may find
  nothing.
- Responses, the proxy connection and the session commands behind a request.
- Settings: an empty target string is not modelled, since the code then looks at the byte in
  front of it. Reading setting files, matching targets to databases and setting lists shared
  between service, database and session are not modelled.
- Metadata.OnlineIsBatch: text policies on text fields and ranges on dates only, as the code
  reads the same union either way; clusters that merge do not merge metadata in the code.
- Ranking of words, facets and snippets made while a record is ingested.
- Ownership: one session, each of its steps taken as a whole; mutexes are not modelled.
- ScoreSearch.NormClient.Normalize: rounding, overflow and the sign of a zero are not
  modelled, a zero divisor counts as positive; targets without score or scored by position
  are not fitted.
- The front ends in JavaScript and PHP, configuration parsing, character sets, term lists,
  MARC hashing and facet limits, which would add only easier echoes of the parts above.
