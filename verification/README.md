# Verified model of the C systems exercises

This project states in Dafny what the data structures, schedulers and protocols of the repository do, and
proves it for all inputs, all heaps and all runs.

- **Trees.** `NtyTree` is the red-black tree of `nty_tree.h` with full removal, `KvsRbtree` the sentinel tree
  and key-value interface of `kvs_rbtree.c`, `Splay` the top-down splay tree. They are programs over mutable
  nodes. `Trees` gives the shape of a linked tree as a value, with a path (a zipper) to the place where the
  program works; `RedBlack` and `SearchOrder` hold the balance and order arguments about such values;
  `LinkedTrees` and `InsertSteps` hold the pointer programs both red-black trees share. A parameter `d` stands
  for the two mirrored arms of the macros: `L` is the arm in which the parent is a left child.
- **Coroutines.** `Scheduler` is the life cycle of coroutines, polling and the main loop; a resume runs up to
  the next yield, and what a coroutine does and what the kernel reports are arbitrary functions. The ready
  queue is a sequence and the wait tree a map there; `TailQueue` and `NtyTree` show that the linked structures
  behave so, and `ReadyQueue` runs a ready pass on the linked queue. `DeadlineQueue` runs the sleep operations on the red-black tree itself, `SleepRuns` whole runs of them.
- **Other lists.** `SkipTable` (any outcome of the coin), `TailQueue` (a link is the entry that holds the slot
  pointing here, as the macros' own casts have it), `KvsHash` (chains against a map), `ContactLists` and
  `Contacts` (groups, search, and the file format), `ConnectPool` (free and used connections, `PoolRuns` whole runs of it).
- **Protocols.** `ThreadPool` is a state machine over atomic steps with spurious wakeups; `TcpStreams` the
  stream table and passive-open handlers, `TcpSpec` what they do told on values and what follows over runs; `Checksum`, `DnsName` the wire arithmetic and layout; `Kvstore` and
  `CommandLine` the commands of the key-value server, from the text of a message to the text of the reply.

Foreign calls (sockets, epoll, MySQL, random numbers, clocks) are parameters whose values are arbitrary.
NULL arguments are `None`. Where the code and what it seems to intend differ, the code is modelled:
`nty_schedule_sched_wait` sets the enumerators of the wait states as if they were bits; any ACK establishes a
TCP stream; the length given for the fragment of a FIN is the header length in words; `load_file` overwrites the
count; `ng_tcp_process` accepts a header that claims to be longer than its segment.

## Model

| member | source | states |
|---|---|---|
| `RedBlack.HeightBound` | 12_1/NtyCo/core/nty_tree.h:390-431 | a red-black tree with n nodes is at most 2*log2(n+1) high |
| `RedBlack.SearchBound` | 12_1/NtyCo/core/nty_tree.h:608-623 | a search of a red-black tree of n nodes looks at no more than 2*log2(n+1) of them |
| `RedBlack.StepsBound` | 12_1/NtyCo/core/nty_tree.h:608-623 | a walk that descends one level in each round makes at most 2*log2(n+1) rounds |
| `RedBlack.PlugBal` | 12_1/NtyCo/core/nty_tree.h:390-431 | a balanced subtree and a path it fits join to a balanced whole |
| `RedBlack.PlugBalInv` | 12_1/NtyCo/core/nty_tree.h:390-431 | at every place a balanced whole splits into a balanced subtree and a path it fits |
| `RedBlack.RedHasParent` | 12_1/NtyCo/core/nty_tree.h:395-396 | a rising red node with a red parent always has a grandparent, so the code never reads below a NULL |
| `RedBlack.InsertRecolor` | 12_1/NtyCo/core/nty_tree.h:398-403 | recolouring a red uncle moves the only possible violation two levels up and keeps black heights |
| `RedBlack.InsertInner` | 12_1/NtyCo/core/nty_tree.h:404-409 | rotating an inner grandchild keeps the violation where it is and the heights right |
| `RedBlack.InsertOuter` | 12_1/NtyCo/core/nty_tree.h:410-411 | the recolouring and rotation for an outer grandchild end with no violation, same black height |
| `RedBlack.InsertEnds` | 12_1/NtyCo/core/nty_tree.h:430 | blackening the root after the loop gives a red-black tree |
| `RedBlack.ShortHasSibling` | 12_1/NtyCo/core/nty_tree.h:439-441 | where a black height is one short the sibling exists, so the removal loop may read it |
| `RedBlack.RemoveRedSibling` | 12_1/NtyCo/core/nty_tree.h:441-445 | turning a red sibling keeps the deficit in place and makes the sibling black |
| `RedBlack.RemoveBlackNephews` | 12_1/NtyCo/core/nty_tree.h:446-452 | reddening the sibling moves the deficit one level up |
| `RedBlack.RemoveNearNephew` | 12_1/NtyCo/core/nty_tree.h:454-463 | turning a red near nephew makes the far one red, deficit unchanged |
| `RedBlack.RemoveFarNephew` | 12_1/NtyCo/core/nty_tree.h:464-468 | the last rotation takes the deficit away |
| `RedBlack.ShortEnds` | 12_1/NtyCo/core/nty_tree.h:507-508 | when the loop stops, blackening what is left repairs the tree |
| `RedBlack.BypassBalance` | 12_1/NtyCo/core/nty_tree.h:560-574 | unlinking a node with at most one child leaves a balanced tree if it was red and one short at one place if it was black |
| `InsertSteps.RecolorUncle` | 12_1/NtyCo/core/nty_tree.h:398-403 | the pointer program of the red-uncle case: same nodes, same order, violation two levels up |
| `InsertSteps.RotateInner` | 12_1/NtyCo/core/nty_tree.h:404-409 | the pointer program of the inner case |
| `InsertSteps.RotateOuter` | 12_1/NtyCo/core/nty_tree.h:410-411 | the pointer program of the outer case, after which the parent is black |
| `InsertSteps.BlackenRoot` | 12_1/NtyCo/core/nty_tree.h:430 | the last line of the insertion repair |
| `InsertSteps.LinkShape` | 12_1/NtyCo/core/nty_tree.h:580-606 | a red node hung where the search for its key ended: the order grows by that item, the balance has one open spot |
| `SearchOrder.AscendingBst` | 12_1/NtyCo/core/nty_tree.h:580-606 | a tree whose items ascend is a search tree |
| `SearchOrder.RoundsIsDepth` | 12_1/NtyCo/core/nty_tree.h:610-623 | a search for the key of a node makes as many rounds as the node has ancestors, and one |
| `LinkedTrees.Head.Turn` | 12_1/NtyCo/core/nty_tree.h:325-365 | both rotation macros: exactly four cells change |
| `LinkedTrees.Head.Rotate` | 12_1/NtyCo/core/nty_tree.h:325-365 | a rotation turns the subtree in focus and moves nothing else; links, colours and order are those of the turned tree |
| `LinkedTrees.Head.Replace` | 12_1/NtyCo/core/nty_tree.h:331-337 | whatever pointed down at a node points at another one |
| `LinkedTrees.Head.Attach` | 12_1/NtyCo/core/nty_tree.h:595-603 | hanging a fresh red node below a leaf position |
| `NtyTree.InsertColor` | 12_1/NtyCo/core/nty_tree.h:391-431 | from one possible red-red edge to a red-black tree with the same nodes in the same order; the loop ends |
| `NtyTree.Insert` | 12_1/NtyCo/core/nty_tree.h:580-606 | a new key adds exactly its item at its place and keeps every red-black invariant; an equal key is returned and nothing changes |
| `NtyTree.Find` | 12_1/NtyCo/core/nty_tree.h:610-623 | finds a key exactly if it is there, in as many rounds as there are nodes on the way to its place: at most 2*log2(n+1) |
| `NtyTree.NFind` | 12_1/NtyCo/core/nty_tree.h:627-644 | the first item whose key is not below the one sought, or none |
| `NtyTree.MinMax` | 12_1/NtyCo/core/nty_tree.h:691-703 | the first or the last item |
| `NtyTree.SearchTree` | 12_1/NtyCo/core/nty_tree.h:580-606 | the tree is a search tree: left of each node lie smaller keys only, right of it larger ones |
| `NtyTree.Neighbour` | 12_1/NtyCo/core/nty_tree.h:648-688 | RB_NEXT and RB_PREV: the next item on that side, NULL at the end |
| `NtyTree.TurnSibling` | 12_1/NtyCo/core/nty_tree.h:441-445 | the pointer program of the red-sibling case |
| `NtyTree.ReddenSibling` | 12_1/NtyCo/core/nty_tree.h:450-452 | the pointer program of the case of two black nephews |
| `NtyTree.TurnNear` | 12_1/NtyCo/core/nty_tree.h:454-463 | the pointer program of the near-nephew case |
| `NtyTree.TurnFar` | 12_1/NtyCo/core/nty_tree.h:464-469 | the pointer program of the far-nephew case: the tree is balanced |
| `NtyTree.RemoveArm` | 12_1/NtyCo/core/nty_tree.h:439-471 | one round of the removal loop |
| `NtyTree.RemoveColor` | 12_1/NtyCo/core/nty_tree.h:434-509 | repairs a tree that is one black short at one place, a missing child included; the loop ends |
| `NtyTree.Bypass` | 12_1/NtyCo/core/nty_tree.h:562-571 | unlinks a node with at most one child |
| `NtyTree.TakePlace` | 12_1/NtyCo/core/nty_tree.h:540-551 | the successor takes over the links and colour of the removed node |
| `NtyTree.RemoveOuter` | 12_1/NtyCo/core/nty_tree.h:560-574 | removal of a node with at most one child |
| `NtyTree.RemoveInner` | 12_1/NtyCo/core/nty_tree.h:520-558 | removal of a node with two children |
| `NtyTree.InnerBalance` | 12_1/NtyCo/core/nty_tree.h:520-558 | after unlinking the successor the tree is one short at the successor's old place exactly if it was black |
| `NtyTree.InnerItems` | 12_1/NtyCo/core/nty_tree.h:520-558 | successor out and in again: the order loses only the removed item |
| `NtyTree.Remove` | 12_1/NtyCo/core/nty_tree.h:512-576 | removing any node leaves a red-black tree whose order is the old one without that node, keys untouched |
| `KvsRbtree.StrLtTotal` | 12_1/kvs_rbtree.c:134-178 | strcmp orders keys totally |
| `KvsRbtree.InsertFixup` | 12_1/kvs_rbtree.c:86-132 | the sentinel version of the insertion repair ends in a red-black tree of the same order |
| `KvsRbtree.Search` | 12_1/kvs_rbtree.c:303-327 | finds a key exactly if it is there, otherwise the sentinel, in as many rounds as there are nodes on the way: at most 2*log2(n+1) |
| `KvsRbtree.Insert` | 12_1/kvs_rbtree.c:134-178 | adds exactly the new key at its place; an equal key leaves the tree alone |
| `KvsRbtree.TreeStore.constructor` | 12_1/kvs_rbtree.c:436-443 | an empty store |
| `KvsRbtree.TreeStore.Set` | 12_1/kvs_rbtree.c:461-484 | 0, 1 or -1 and the new contents, against a map |
| `KvsRbtree.TreeStore.Get` | 12_1/kvs_rbtree.c:486-494 | the value under the key, or nothing |
| `KvsRbtree.TreeStore.Mod` | 12_1/kvs_rbtree.c:510-526 | changes the value of a present key only |
| `KvsRbtree.TreeStore.Exist` | 12_1/kvs_rbtree.c:528-539 | 0 exactly for present keys |
| `KvsRbtree.KeysByBytes` | 12_1/kvs_rbtree.c:134-178 | in the order of the tree each key comes before the next at the first byte in which they differ |
| `KvsRbtree.OneNodePerKey` | 12_1/kvs_rbtree.c:134-178 | no key has two nodes |
| `Splay.LinkHeld` | 12_1/NtyCo/core/nty_tree.h:88-98 | SPLAY_LINKLEFT and SPLAY_LINKRIGHT: the root joins a spine below the scratch node, nothing is lost |
| `Splay.TurnHeld` | 12_1/NtyCo/core/nty_tree.h:75-85 | SPLAY_ROTATE_LEFT and SPLAY_ROTATE_RIGHT inside a splay |
| `Splay.AssembleHeld` | 12_1/NtyCo/core/nty_tree.h:100-105 | the four writes of SPLAY_ASSEMBLE hang both spines under the root, also when a spine is empty |
| `Splay.LinkedItems` | 12_1/NtyCo/core/nty_tree.h:88-98 | linking keeps the order of all nodes and shrinks the subtree still to be searched |
| `Splay.LinkedAround` | 12_1/NtyCo/core/nty_tree.h:226-252 | what is linked away lies on the far side of the goal |
| `Splay.ResultNearest` | 12_1/NtyCo/core/nty_tree.h:226-252 | at the end the root is the goal or nothing lies between them |
| `Splay.NearestHas` | 12_1/NtyCo/core/nty_tree.h:112-119 | after a splay a key is in the tree exactly if it is at the root |
| `Splay.GreatestUp` | 12_1/NtyCo/core/nty_tree.h:213-215 | a splay of the left subtree for the removed key leaves an empty right child |
| `Splay.SplayHead.Rotate` | 12_1/NtyCo/core/nty_tree.h:75-85 | the rotation macros on the heap |
| `Splay.SplayHead.Link` | 12_1/NtyCo/core/nty_tree.h:88-98 | the link macros on the heap |
| `Splay.SplayHead.Hang` | 12_1/NtyCo/core/nty_tree.h:100-105 | SPLAY_ASSEMBLE, write by write |
| `Splay.SplayHead.Descend` | 12_1/NtyCo/core/nty_tree.h:226-251 | one round of the splay loop; the subtree in hand gets smaller |
| `Splay.SplayHead.Splay` | 12_1/NtyCo/core/nty_tree.h:220-276 | same nodes, same order, and the goal or a neighbour of it at the root; also SPLAY_MINMAX |
| `Splay.SplayHead.SearchTree` | 12_1/NtyCo/core/nty_tree.h:145-168 | the tree is a search tree |
| `Splay.SplayHead.Find` | 12_1/NtyCo/core/nty_tree.h:112-119 | finds a key exactly if it is there; same contents |
| `Splay.SplayHead.Next` | 12_1/NtyCo/core/nty_tree.h:121-133 | the successor of a node |
| `Splay.SplayHead.MinMax` | 12_1/NtyCo/core/nty_tree.h:135-139 | the least or the greatest node |
| `Splay.SplayHead.Insert` | 12_1/NtyCo/core/nty_tree.h:145-168 | adds exactly the new key; an equal key is returned and the contents stay |
| `Splay.SplayHead.JoinKids` | 12_1/NtyCo/core/nty_tree.h:213-216 | the reattached right subtree replaces nothing |
| `Splay.SplayHead.DropTop` | 12_1/NtyCo/core/nty_tree.h:209-217 | taking out the root loses only the root |
| `Splay.SplayHead.Remove` | 12_1/NtyCo/core/nty_tree.h:171-191 | takes out exactly the node with the key, or nothing |
| `Scheduler.Schedule.constructor` | 12_1/NtyCo/core/nty_schedule.c:201-245 | an empty scheduler meets the invariant |
| `Scheduler.Schedule.OneHome` | 12_1/NtyCo/core/nty_schedule.c:316-368 | a coroutine ever created is live or freed, never both; a live one is running, queued or waiting for exactly one descriptor, and only one of these |
| `Scheduler.Schedule.Create` | 12_1/NtyCo/core/nty_coroutine.c:302-352 | a new coroutine joins the ready queue at its end; the count grows by one |
| `Scheduler.Schedule.Free` | 12_1/NtyCo/core/nty_coroutine.c:175-188 | a freed coroutine is live no more and is freed for the first time |
| `Scheduler.Schedule.SchedWait` | 12_1/NtyCo/core/nty_schedule.c:150-179 | the first assertion never fires; the second fires exactly if somebody waits for the descriptor already |
| `Scheduler.Schedule.PollBegin` | 12_1/NtyCo/core/nty_socket.c:90-104 | registered descriptors stay exactly the keys of the wait tree |
| `Scheduler.Schedule.DeschedWait` | 12_1/NtyCo/core/nty_schedule.c:133-148 | the waiter leaves the wait tree with its status cleared, so an end-of-file bit never reaches the ready queue |
| `Scheduler.Schedule.PollEnd` | 12_1/NtyCo/core/nty_socket.c:106-116 | after its yield a poll undoes both registrations |
| `Scheduler.Schedule.Spawn` | 12_1/NtyCo/core/nty_coroutine.c:302-352 | so many new coroutines, nobody twice, join the ready queue in order |
| `Scheduler.Schedule.Run` | 12_1/NtyCo/core/nty_coroutine.c:72-77 | one burst of a coroutine: it creates as many as it wants, then polls, sleeps for no time or exits; the queue, the wait tree and who was made are then just these |
| `Scheduler.Schedule.Enter` | 12_1/NtyCo/core/nty_coroutine.c:226-238 | control passes to a coroutine that is then in no queue and no tree |
| `Scheduler.Schedule.Resume` | 12_1/NtyCo/core/nty_coroutine.c:226-257 | a resume keeps the invariant and changes the scheduler as `Look.Plays` says; the process ends exactly if the coroutine polls a descriptor somebody else waits for |
| `Scheduler.Schedule.DoneMeansNoneLive` | 12_1/NtyCo/core/nty_schedule.c:261-266 | the loop test holds exactly if no coroutine is live; then all created ones have been freed |
| `Scheduler.Schedule.Dequeue` | 12_1/NtyCo/core/nty_schedule.c:331-334 | a queued coroutine never carries the end-of-file bit |
| `Scheduler.Schedule.ReadyPass` | 12_1/NtyCo/core/nty_schedule.c:329-341 | resumes exactly the coroutines queued when it began, once each, in order, each by one `Turn` |
| `Scheduler.Schedule.SearchWait` | 12_1/NtyCo/core/nty_schedule.c:121-131 | finds the waiter of a reported descriptor |
| `Scheduler.Schedule.Epoll` | 12_1/NtyCo/core/nty_schedule.c:283-314 | asks the kernel only with an empty ready queue; what it reports is waited for |
| `Scheduler.Schedule.EventPass` | 12_1/NtyCo/core/nty_schedule.c:343-362 | each reported descriptor resumes its own waiter once, last entry first, whatever the resumed coroutines do |
| `Scheduler.Schedule.OneRound` | 12_1/NtyCo/core/nty_schedule.c:329-362 | one round resumes those queued at its start and then, if the queue is empty, those whose descriptors the kernel reports of what is waiting at that moment; what ends the process is a resume of one of them |
| `Scheduler.Schedule.MainLoop` | 12_1/NtyCo/core/nty_schedule.c:316-368 | a chain of such rounds, as many as asked for unless nothing is left or the process ends before; between resumes nothing changes; it stops exactly when none is live |
| `Scheduler.WaitersAt` | 12_1/NtyCo/core/nty_schedule.c:344-355 | the batch is worked off from its last entry, each by whoever waits for its descriptor |
| `Scheduler.ReportedRuns` | 12_1/NtyCo/core/nty_schedule.c:343-362 | in a round whose queue runs empty, each coroutine whose descriptor is reported is resumed in that round, and nobody else in step 3 |
| `Scheduler.TurnLeaves` | 12_1/NtyCo/core/nty_coroutine.c:271-280 | whom a burst creates is queued, a sleeper is last in the queue, a poller waits for its descriptor, and one that exits is freed |
| `Scheduler.NobodyStarves` | 12_1/NtyCo/core/nty_schedule.c:316-368 | who is in the queue during a round is resumed before the next round ends |
| `Scheduler.JoinedRunsSoon` | 12_1/NtyCo/core/nty_schedule.c:316-368 | so is who is created in a round or yields in it by a sleep of no time |
| `Scheduler.StaysWaiting` | 12_1/NtyCo/core/nty_schedule.c:316-368 | who waits for a descriptor goes on waiting for it until it is resumed |
| `Scheduler.Schedule.IdleSound` | 12_1/NtyCo/core/nty_schedule.c:316-368 | the invariant of the scheduler on values |
| `Scheduler.AlwaysSound` | 12_1/NtyCo/core/nty_schedule.c:316-368 | over any run of resumes nobody is queued twice, waits twice, waits and is queued, or is either after being freed |
| `Scheduler.ExitIsFinal` | 12_1/NtyCo/core/nty_coroutine.c:246-253 | a coroutine that exits is freed by that resume and never resumed again |
| `ReadyQueue.Play` | 12_1/NtyCo/core/nty_schedule.c:329-341 | who is created, and who sleeps, joins the linked queue at its end |
| `ReadyQueue.JoinedInOrder` | 12_1/NtyCo/core/nty_schedule.c:329-341 | one after another: first whom a coroutine created, then itself if it slept |
| `ReadyQueue.Pass` | 12_1/NtyCo/core/nty_schedule.c:329-341 | a pass over the linked queue resumes exactly the coroutines queued when it began, once each, in order, and leaves who joined meanwhile |
| `DeadlineQueue.FindsItself` | 12_1/NtyCo/core/nty_schedule.c:90-93 | a lookup by a coroutine's last deadline finds that coroutine or nobody |
| `DeadlineQueue.NewCoroutine` | 12_1/NtyCo/core/nty_schedule.c:87-109 | a new coroutine, with deadline 0, disturbs nobody |
| `DeadlineQueue.ThrowOut` | 12_1/NtyCo/core/nty_schedule.c:90-93 | the start of sched_sleepdown throws out whoever sits at the old deadline, if anybody does |
| `DeadlineQueue.Forget` | 12_1/NtyCo/core/nty_schedule.c:90-93 | in a scheduler in order that is nobody but the coroutine itself |
| `DeadlineQueue.TakenFits` | 12_1/NtyCo/core/nty_schedule.c:97-106 | a run of taken deadlines is no longer than the tree is large |
| `DeadlineQueue.Probe` | 12_1/NtyCo/core/nty_schedule.c:97-106 | the probe ends at the least free deadline, at most as many microseconds late as there are sleepers |
| `DeadlineQueue.SchedSleepdown` | 12_1/NtyCo/core/nty_schedule.c:87-109 | positive times: least free deadline at or after the request, nobody else moved; time 0: safe exactly if nobody is due at this microsecond |
| `DeadlineQueue.Expired` | 12_1/NtyCo/core/nty_schedule.c:248-259 | the earliest sleeper leaves exactly if it is due |
| `DeadlineQueue.DrainExpired` | 12_1/NtyCo/core/nty_schedule.c:324-327 | with a clock that does not go back, what is due leaves in ascending order and what stays is not due |
| `DeadlineQueue.MinTimeout` | 12_1/NtyCo/core/nty_schedule.c:268-281 | the time to the first deadline, 0 if it has passed, 3 seconds without sleepers |
| `SleepRuns.RestDeadlines` | 12_1/NtyCo/core/nty_schedule.c:87-109 | the deadlines of all but one sleeper, in the tree and by birth |
| `SleepRuns.DoSleep` | 12_1/NtyCo/core/nty_schedule.c:87-109 | sleeping gives a coroutine the least free deadline and touches nobody else; it leaves a safe tree exactly unless the time is 0 at the microsecond of a deadline |
| `SleepRuns.SleepTwice` | 12_1/NtyCo/core/nty_schedule.c:87-109 | after a sleep of time 0 the next sleep throws another coroutine out exactly if that was at the other's deadline |
| `SleepRuns.DoExpire` | 12_1/NtyCo/core/nty_schedule.c:248-259 | the sleeper that is due first leaves, and nobody if none is due |
| `SleepRuns.Run` | 12_1/NtyCo/core/nty_schedule.c:87-109 | over any run of births, sleeps and expiries from an empty tree, each call does just this, so nobody evicts another or wakes it early |
| `SkipTable.SkipList.constructor` | 12_1/kvs_skiptable.c:31-43 | an empty list |
| `SkipTable.SkipList.Walk` | 12_1/kvs_skiptable.c:55-59 | the walk on one level never reads a slot above a node's height and stops right before the key |
| `SkipTable.SkipList.PlaceFound` | 12_1/kvs_skiptable.c:61-63 | leaving level 0 fixes the place of the key |
| `SkipTable.SkipList.LeftBefore` | 12_1/kvs_skiptable.c:55-59 | every level was left at its last node before that place |
| `SkipTable.SkipList.RandomLevel` | 12_1/kvs_skiptable.c:45-50 | the number of tosses won before the first one lost, at most MAX_LEVEL |
| `SkipTable.SkipList.Splice` | 12_1/kvs_skiptable.c:75-78 | the new node goes behind the recorded node on each of its levels; no other slot changes |
| `SkipTable.SpliceLinks` | 12_1/kvs_skiptable.c:75-78 | after these writes every slot again leads to the next node that is tall enough |
| `SkipTable.SkipList.Insert` | 12_1/kvs_skiptable.c:52-87 | a new key gets a node at its place, as tall as the coin says; a present key changes nothing |
| `SkipTable.SkipList.Search` | 12_1/kvs_skiptable.c:105-126 | true exactly for the keys in the list, with their values |
| `SkipTable.SkipList.DisplayLevel` | 12_1/kvs_skiptable.c:89-103 | the nodes on a level are those tall enough for it, strictly ascending |
| `SkipTable.LevelsNest` | 12_1/kvs_skiptable.c:75-78 | each level is what a lower one has of taller nodes |
| `SkipTable.TallAscends` | 12_1/kvs_skiptable.c:75-78 | levels of an ascending row ascend |
| `SkipTable.InsertAll` | 12_1/kvs_skiptable.c:52-87 | after any run of inserts with any coins the list holds each key once, with its first value |
| `SkipTable.OnLevel` | 12_1/kvs_skiptable.c:75-78 | level i has exactly the nodes that are tall enough for it |
| `SkipTable.RunKeys` | 12_1/kvs_skiptable.c:52-87 | the keys of that map are the keys inserted |
| `SkipTable.FirstValue` | 12_1/kvs_skiptable.c:52-87 | its value for a key is the one first inserted under it |
| `ThreadPool.ExclusionKept` | 00/04_threadpool/Threadpool.c:79-106 | every step keeps the mutex exclusive |
| `ThreadPool.SeenKept` | 00/04_threadpool/Threadpool.c:84-97 | what a worker has seen under the mutex still holds when it acts on it; a task it unlinks is never NULL |
| `ThreadPool.NoneStrandedKept` | 00/04_threadpool/Threadpool.c:79-106 | every step keeps the no-stranded-task invariant |
| `ThreadPool.ShutdownKept` | 00/04_threadpool/Threadpool.c:169-186 | every step keeps the shutdown invariant |
| `ThreadPool.ConservedKept` | 00/04_threadpool/Threadpool.c:79-109 | every step keeps each task in its one place, exactly unless it writes a stale list back |
| `ThreadPool.TornBringsBack` | 00/04_threadpool/Threadpool.c:184-196 | a clear in the middle of an insertion makes its list stale, and the insertion queues the dropped tasks again |
| `ThreadPool.StaleIsTorn` | 00/04_threadpool/Threadpool.c:184-196 | only such a clear makes a list stale |
| `ThreadPool.TornHappens` | 00/04_threadpool/Threadpool.c:184-196 | for every set of workers an execution that gets there |
| `ThreadPool.ConservedAlways` | 00/04_threadpool/Threadpool.c:79-200 | over an execution tasks are conserved exactly if no stale list is written back |
| `ThreadPool.Always` | 00/04_threadpool/Threadpool.c:79-200 | mutual exclusion, shutdown, what was seen and no stranded task hold in every state of every execution |
| `ThreadPool.NoTaskStranded` | 00/04_threadpool/Threadpool.c:79-106 | before shutdown, while a worker sleeps, every queued task whose signal is out has a worker of its own on its way to the list |
| `ThreadPool.ExactlyOnePlace` | 00/04_threadpool/Threadpool.c:79-109 | every task handed over is queued, held, executed or dropped, one of them and once, exactly as long as no stale list is written back |
| `ThreadPool.NobodyBlockedAfterBroadcast` | 00/04_threadpool/Threadpool.c:169-186 | after the broadcast nobody is blocked or about to be; the unlocked clearing of the list meets no worker in it |
| `ThreadPool.Draining` | 00/04_threadpool/Threadpool.c:84-108 | after the broadcast every step of a worker brings it nearer to its end |
| `ThreadPool.NoDeadlock` | 00/04_threadpool/Threadpool.c:84-108 | after the broadcast somebody can always go on while a worker is left |
| `ThreadPool.WorkerServes` | 00/04_threadpool/Threadpool.c:79-106 | a worker alone takes the first task, runs it with the mutex free and comes back |
| `ThreadPool.WorkerSleepsOrLeaves` | 00/04_threadpool/Threadpool.c:84-92 | it sleeps on an empty list and leaves when told to, with the mutex free either way |
| `ThreadPool.PushGoesFirst` | 00/04_threadpool/Threadpool.c:189-200 | a task handed over goes in front of the others, and wakes somebody if anybody sleeps |
| `TcpSpec.RightNumber` | 02/2.4_dpdk/ustack/tcp.c:1782-1786 | the acknowledged number is right modulo 2^32 exactly if the shortfalls of overlong headers add up to a multiple of 2^32 |
| `TcpSpec.PushKeeps` | 02/2.4_dpdk/ustack/tcp.c:1713-1790 | a pushed payload is kept whole and accounted for; an exact number stays exact exactly if the header is not longer than the segment |
| `TcpSpec.FinKeeps` | 02/2.4_dpdk/ustack/tcp.c:1826-1858 | a FIN is accounted for with one number and an empty fragment |
| `TcpSpec.AfterKeeps` | 02/2.4_dpdk/ustack/tcp.c:1609-1902 | a segment moves a stream forward on its path and keeps its books and what the peer was told last |
| `TcpSpec.EachReply` | 02/2.4_dpdk/ustack/tcp.c:1681-1707 | the reply to a push, a FIN or both: ports, the number the peer expects, the number after what was kept |
| `TcpSpec.StatusMoves` | 02/2.4_dpdk/ustack/tcp.c:1609-1902 | where a segment takes a stream, and when it does nothing |
| `TcpSpec.WholeLife` | 02/2.4_dpdk/ustack/tcp.c:1561-1902 | handshake, one push, FIN, close and last ACK: what was kept and what was acknowledged last |
| `TcpSpec.ModSmall` | 02/2.4_dpdk/ustack/tcp.c:1782-1786 | sequence numbers below 2^32 are themselves |
| `TcpSpec.BehindHeader` | 02/2.4_dpdk/ustack/tcp.c:1713-1790 | a segment is its header and the payload kept of it |
| `TcpSpec.LastTold` | 02/2.4_dpdk/ustack/tcp.c:1681-1707 | the peer was told the right number last exactly if the stream's own is right |
| `TcpSpec.ClosingKeeps` | 02/2.4_dpdk/ustack/tcp.c:1403-1434 | a FIN reply tells the same numbers as the last ACK, and nothing is lost |
| `TcpSpec.NewTuple` | 02/2.4_dpdk/ustack/tcp.c:1561-1606 | a SYN with a peer that meets a listener comes from a tuple that no stream has |
| `TcpSpec.EventKeeps` | 02/2.4_dpdk/ustack/tcp.c:1376-1976 | every event keeps tuples distinct and books right, no stream goes back, and exactness is lost exactly by a misleading segment |
| `TcpSpec.AlwaysGood` | 02/2.4_dpdk/ustack/tcp.c:1376-1976 | at every moment of a run the acknowledged number of every stream ever made is the initial number, plus one, plus the bytes kept, plus one for a FIN, less the shortfalls, modulo 2^32 |
| `TcpSpec.AlwaysTold` | 02/2.4_dpdk/ustack/tcp.c:1376-1976 | at every moment the last segment sent by a stream with a peer has its ports turned round, its next number, and acknowledges what it has kept less the shortfalls |
| `TcpSpec.NeverBack` | 02/2.4_dpdk/ustack/tcp.c:1376-1976 | between any two moments of a run no stream goes back, loses a byte or a reply, or gets another peer number or descriptor, in the table or not |
| `TcpSpec.ExactWhile` | 02/2.4_dpdk/ustack/tcp.c:1376-1976 | the numbers are exact up to a moment exactly if no pushed segment with an overlong header met an established stream by then |
| `TcpSpec.ToldRightWhile` | 02/2.4_dpdk/ustack/tcp.c:1376-1976 | what all peers are told is right up to a moment exactly under the same condition |
| `TcpSpec.ExactIfWellFormed` | 02/2.4_dpdk/ustack/tcp.c:1376-1976 | with well-formed segments they stay exact |
| `TcpSpec.Received` | 02/2.4_dpdk/ustack/tcp.c:1639-1858 | between two moments a stream keeps exactly the payloads of the pushed segments that go to it while established, in order, and an empty fragment for the FIN |
| `TcpStreams.Stream.EnqueueRecvbuffer` | 02/2.4_dpdk/ustack/tcp.c:1639-1678 | one fragment per call, empty if the length given does not exceed the header |
| `TcpStreams.Stream.AnswerSyn` | 02/2.4_dpdk/ustack/tcp.c:1587-1600 | a SYN is answered with its number plus one |
| `TcpStreams.Stream.TakePush` | 02/2.4_dpdk/ustack/tcp.c:1713-1790 | the payload is kept whole; the number acknowledged in the reply moves by the payload length, which an overlong header makes negative |
| `TcpStreams.Stream.TakeFin` | 02/2.4_dpdk/ustack/tcp.c:1826-1858 | one empty fragment and one sequence number, which the reply acknowledges |
| `TcpStreams.Stream.HandleEstablished` | 02/2.4_dpdk/ustack/tcp.c:1708-1861 | both together, in this order |
| `TcpStreams.Table.Search` | 02/2.4_dpdk/ustack/tcp.c:1496-1519 | the first exact match, else the first listener on the port |
| `TcpStreams.Table.FirstUnaccepted` | 02/2.4_dpdk/ustack/tcp.c:773-784 | the stream of the port that accept takes: the first in the list without a descriptor |
| `TcpStreams.Table.HandleListen` | 02/2.4_dpdk/ustack/tcp.c:1561-1606 | a SYN puts an answered stream in front, anything else changes nothing |
| `TcpStreams.Table.HandleSynRcvd` | 02/2.4_dpdk/ustack/tcp.c:1609-1637 | any ACK establishes; the process ends exactly without a match for the listener |
| `TcpStreams.Table.HandleLastAck` | 02/2.4_dpdk/ustack/tcp.c:1880-1902 | the last ACK takes out this stream only |
| `TcpStreams.Table.Process` | 02/2.4_dpdk/ustack/tcp.c:1905-1976 | return code, end of the process, and the next moment of the table, fixed by the segment and the last moment; tuples stay distinct and books right |
| `TcpStreams.Table.Close` | 02/2.4_dpdk/ustack/tcp.c:1376-1434 | a listener leaves; any other stream sends FIN and goes to LAST_ACK; nothing else changes |
| `TcpStreams.Table.Accept` | 02/2.4_dpdk/ustack/tcp.c:1150-1176 | the first stream of the port without a descriptor gets one; nothing else changes |
| `TcpStreams.Table.Open` | 02/2.4_dpdk/ustack/tcp.c:1062-1147 | a socket that was bound, and listens or not |
| `TcpStreams.Step` | 02/2.4_dpdk/ustack/tcp.c:1376-1976 | one event takes the table to the next moment, and ends the process exactly if an ACK finds nobody to tell |
| `TcpStreams.Run` | 02/2.4_dpdk/ustack/tcp.c:1376-1976 | a run goes through the moments its events determine, from that of the table at its start to that at its end; with well-formed segments exact numbers stay exact |
| `TcpStreams.MisledStream` | 02/2.4_dpdk/ustack/tcp.c:1905-1976 | after a handshake with any peer one pushed segment of 20 bytes with a header of 60 leaves the number 40 too low |
| `TcpStreams.TwinsWithoutPeer` | 02/2.4_dpdk/ustack/tcp.c:1496-1606 | with address 0 and port 0 for the peer uniqueness fails, whatever the local end: two streams with one tuple |
| `Checksum.NgChecksum` | 02/2.4_dpdk/ustack/tcp.c:389-409 | the complement of the folded word sum, 0xffff exactly for a buffer of zeros; both loops end |
| `Checksum.WordSumOf` | 02/2.4_dpdk/ustack/tcp.c:393-403 | two bytes are one word, the first one low; a last odd byte is a word of its own |
| `Checksum.WordSumAdds` | 02/2.4_dpdk/ustack/tcp.c:393-403 | the sums of two parts add up if the first has whole words |
| `Checksum.WordSumZero` | 02/2.4_dpdk/ustack/tcp.c:393-403 | the sum is 0 exactly for zeros |
| `Checksum.FoldStep` | 02/2.4_dpdk/ustack/tcp.c:405-407 | one folding step keeps the sum modulo 65535 and keeps it from becoming 0 |
| `Checksum.StoreAdds` | 02/2.4_dpdk/ustack/tcp.c:442-443 | a word stored in a zeroed field adds its value to the sum |
| `Checksum.PassesIff` | 02/2.4_dpdk/ustack/tcp.c:389-409 | a buffer passes exactly if its word sum is a positive multiple of 65535 |
| `Checksum.Seal` | 02/2.4_dpdk/ustack/tcp.c:442-443 | computing over the zeroed field and storing makes the second computation return 0 |
| `Checksum.OnlyTheChecksumPasses` | 02/2.4_dpdk/ustack/tcp.c:442-443 | no other word in the field passes, save 0xffff for 0 |
| `TailQueue.Init` | 12_1/NtyCo/core/nty_queue.h:486-490 | an empty queue |
| `TailQueue.Ends` | 12_1/NtyCo/core/nty_queue.h:540-541 | first and last element, NULL exactly for an empty queue |
| `TailQueue.Beside` | 12_1/NtyCo/core/nty_queue.h:543-546 | next and previous element, NULL at the ends |
| `TailQueue.Inserted` | 12_1/NtyCo/core/nty_queue.h:492-538 | the writes common to all insertions put one element behind a slot, links exact both ways |
| `TailQueue.InsertHead` | 12_1/NtyCo/core/nty_queue.h:517-528 | the sequence with the element in front |
| `TailQueue.InsertTail` | 12_1/NtyCo/core/nty_queue.h:530-538 | the sequence with the element at the end |
| `TailQueue.InsertAfter` | 12_1/NtyCo/core/nty_queue.h:492-505 | the sequence with the element behind the given one |
| `TailQueue.InsertBefore` | 12_1/NtyCo/core/nty_queue.h:507-515 | the sequence with the element before the given one, without the head |
| `TailQueue.Removed` | 12_1/NtyCo/core/nty_queue.h:548-562 | two slots written, one element gone |
| `TailQueue.Remove` | 12_1/NtyCo/core/nty_queue.h:548-562 | the sequence without the element |
| `TailQueue.JoinedLinks` | 12_1/NtyCo/core/nty_queue.h:451-460 | the writes of a concatenation link both sequences into one |
| `TailQueue.Concat` | 12_1/NtyCo/core/nty_queue.h:451-460 | the second sequence behind the first, and an empty second queue |
| `TailQueue.Reheaded` | 12_1/NtyCo/core/nty_queue.h:564-579 | a sequence under another head |
| `TailQueue.Swap` | 12_1/NtyCo/core/nty_queue.h:564-579 | the two heads exchange their sequences |
| `KvsHash.CharSumAdds` | 12_1/kvs_hash.c:23-37 | the sum of a key adds up over its parts, each byte as a signed char |
| `KvsHash.SlotOfSum` | 12_1/kvs_hash.c:23-37 | the slot is that sum modulo the table size, with the sign of the sum |
| `KvsHash.SlotInTable` | 12_1/kvs_hash.c:23-37 | the slot is inside the table exactly if the signed sum of the key is not negative or divides evenly |
| `KvsHash.AsciiSlot` | 12_1/kvs_hash.c:23-37 | keys of bytes below 128 have a slot |
| `KvsHash.NegativeSlot` | 12_1/kvs_hash.c:23-37 | a key whose slot is negative |
| `KvsHash.Added` | 12_1/kvs_hash.c:113-137 | a node put in front of its chain adds exactly its entry |
| `KvsHash.Removed` | 12_1/kvs_hash.c:199-241 | a node taken out of its chain removes exactly its entry |
| `KvsHash.NodesAreKeys` | 12_1/kvs_hash.c:195-197 | the chains together hold as many nodes as the map has keys |
| `KvsHash.HashTable.constructor` | 12_1/kvs_hash.c:73-85 | an empty table |
| `KvsHash.HashTable.Count` | 12_1/kvs_hash.c:195-197 | the number of nodes in all chains, which is the number of keys |
| `KvsHash.HashTable.Lookup` | 12_1/kvs_hash.c:113-159 | the node of a key, or none |
| `KvsHash.HashTable.Set` | 12_1/kvs_hash.c:113-137 | 0, 1 or -1 and the new contents, against a map |
| `KvsHash.HashTable.Get` | 12_1/kvs_hash.c:139-159 | the value under the key, or nothing |
| `KvsHash.HashTable.Mod` | 12_1/kvs_hash.c:161-193 | changes the value of a present key only |
| `KvsHash.HashTable.Del` | 12_1/kvs_hash.c:199-241 | takes out exactly the key |
| `KvsHash.HashTable.Exist` | 12_1/kvs_hash.c:243-250 | 0 exactly for present keys |
| `Kvstore.Server.constructor` | 12_1/kvstore.c:291-307 | both engines empty |
| `Kvstore.Server.ServeTree` | 12_1/kvstore.c:157-208 | each tree command answers from the map and changes it as the map says |
| `Kvstore.Server.ServeHash` | 12_1/kvstore.c:209-258 | each hash command answers from the map and changes it as the map says |
| `Kvstore.Server.Serve` | 12_1/kvstore.c:88-266 | any stream of commands gets the replies computed from two maps |
| `Kvstore.ReadBack` | 12_1/kvstore.c:88-266 | a value stays what it was whatever is asked of other keys and of the other engine |
| `Kvstore.StoredIsFound` | 12_1/kvstore.c:88-266 | what a SET or MOD answered "ok" stored is what every later request for the key finds, until it is written again |
| `Kvstore.SetThenGet` | 12_1/kvstore.c:88-266 | a SET answered "ok" is what a later GET, EXIST and SET see |
| `Kvstore.ModThenGet` | 12_1/kvstore.c:88-266 | a MOD answered "ok" makes every later GET answer its value, until the key is written again |
| `Kvstore.DelThenGone` | 12_1/kvstore.c:88-266 | after a DEL answered "ok" the key answers as a missing one, until it is written again |
| `Kvstore.OnlyOkChanges` | 12_1/kvstore.c:88-266 | a GET, an EXIST and whatever is not answered "ok" change nothing |
| `Kvstore.FirstLacks` | 12_1/kvstore.c:88-266 | no key is there in the beginning |
| `Kvstore.Refusals` | 12_1/kvstore.c:88-266 | the answers to a request without a key |
| `CommandLine.SplitToken` | 12_1/kvstore.c:69-83 | the array gets the tokens of the message in order |
| `CommandLine.FindCommand` | 12_1/kvstore.c:92-97 | the first command of the table with that name |
| `CommandLine.Protocol` | 12_1/kvstore.c:275-288 | a message is answered with the text of the answer that the two maps determine; an unknown command ends the process |
| `CommandLine.CommandsSpelled` | 12_1/kvstore.c:29-34 | the table of commands, letter by letter |
| `CommandLine.TextsSpelled` | 12_1/kvstore.c:110-255 | the texts of the answers, letter by letter |
| `CommandLine.TreeWords` | 12_1/kvstore.c:157-208 | which request each tree command is |
| `CommandLine.HashWords` | 12_1/kvstore.c:209-258 | which request each hash command is |
| `CommandLine.UnknownWord` | 12_1/kvstore.c:92-104 | any other first word is unknown |
| `CommandLine.LineUnderstood` | 12_1/kvstore.c:69-104 | a request written with single spaces is read as that request |
| `CommandLine.StoredThenRead` | 12_1/kvstore.c:88-266 | a stored value is the text a later GET line is answered with |
| `CStrings.StrCmpLex` | 00/02_contacts/Contacts_task.c:100 | strcmp is negative exactly if the first string ends first or has the smaller byte where they first differ |
| `CStrings.StrCmpBytes` | 00/02_contacts/Contacts_task.c:100 | after a common start the smaller byte decides |
| `CStrings.StrCmpAfter` | 00/02_contacts/Contacts_task.c:100 | a common start does not matter, and a proper start comes first |
| `ContactLists.NameIndex` | 00/02_contacts/Contacts_task.c:63-72 | the number of the letter a name starts with, small or capital, or -1 exactly for any other start |
| `ContactLists.LettersOf` | 00/02_contacts/Contacts_task.c:63-72 | group g is that of the names with letter number g of the alphabet |
| `ContactLists.InsortedSorted` | 00/02_contacts/Contacts_task.c:95-113 | an insertion keeps the group sorted byte by byte, adds one entry and loses none |
| `ContactLists.InsertedLinks` | 00/02_contacts/Contacts_task.c:105-112 | the links of an insertion are consistent both ways |
| `ContactLists.DeletedLinks` | 00/02_contacts/Contacts_task.c:22-28 | LIST_REMOVE leaves a consistent list |
| `ContactLists.PersonInsert` | 00/02_contacts/Contacts_task.c:85-114 | the group stays a list in the byte order of the names, with the entry before any of the same name |
| `ContactLists.PersonSearchInGroup` | 00/02_contacts/Contacts_task.c:125-133 | the first entry of the name, or none |
| `ContactLists.PersonDelete` | 00/02_contacts/Contacts_task.c:117-123 | the group without that entry |
| `Contacts.Book.constructor` | 00/02_contacts/Contacts_task.c:48-51 | an empty book |
| `Contacts.Book.Insert` | 00/02_contacts/Contacts_task.c:191-217 | one entry more in the group of its letter, each group in the byte order of its names, or a refusal; the count agrees |
| `Contacts.Book.Search` | 00/02_contacts/Contacts_task.c:137-146 | finds a name exactly if it is stored in any group |
| `Contacts.Book.Delete` | 00/02_contacts/Contacts_task.c:226-251 | takes out the first entry of that name, or nothing; the count agrees |
| `Contacts.Book.Save` | 00/02_contacts/Contacts_task.c:269-287 | one line for each entry, group by group |
| `Contacts.Book.Load` | 00/02_contacts/Contacts_task.c:289-325 | every line up to the first that does not scan is inserted; the count is right exactly if the book was empty |
| `Contacts.LineSpelled` | 00/02_contacts/Contacts_task.c:278 | the line of an entry, letter by letter |
| `Contacts.ScanLine` | 00/02_contacts/Contacts_task.c:298 | a written line is scanned back to its entry, whatever line follows |
| `Contacts.LinesRead` | 00/02_contacts/Contacts_task.c:298-320 | a file of well-formed lines reads back as its entries |
| `Contacts.MadeByInsertions` | 00/02_contacts/Contacts_task.c:191-217 | insertions of entries that fit the fields make books with sorted groups of one letter each |
| `Contacts.FilledTurns` | 00/02_contacts/Contacts_task.c:85-114 | a sorted group put in one by one comes out with the entries of each name turned around |
| `Contacts.ReadCommaFree` | 00/02_contacts/Contacts_task.c:298 | whatever a file holds, no name read from it has a comma |
| `Contacts.LoadTurns` | 00/02_contacts/Contacts_task.c:269-325 | without commas, a saved and loaded book is the book with the entries of each name turned around |
| `Contacts.RoundTrip` | 00/02_contacts/Contacts_task.c:269-325 | a book that insertions made comes back from its file exactly if no name has a comma and the entries of each name read the same both ways |
| `Contacts.DistinctComesBack` | 00/02_contacts/Contacts_task.c:269-325 | so a book of distinct names without commas comes back |
| `Contacts.SaveAndLoad` | 00/02_contacts/Contacts_task.c:269-325 | the same of the two operations |
| `Contacts.TwinsTurnAround` | 00/02_contacts/Contacts_task.c:269-325 | a book with two numbers for one name comes back from its file as another book |
| `ConnectPool.CutLinks` | 00/05_mysql/mysql_connectPool.c:330-332 | setting the slot past a connection takes just that one out of the list |
| `ConnectPool.Pool.constructor` | 00/05_mysql/mysql_connectPool.c:280-299 | the connections that could be made, all free, the last one first |
| `ConnectPool.LastMadeFirst` | 00/05_mysql/mysql_connectPool.c:286-296 | the handle of the last success is first; without a success there is none |
| `ConnectPool.Pool.CreateConnection` | 00/05_mysql/mysql_connectPool.c:251-277 | a connection exactly if the server accepts |
| `ConnectPool.Pool.Get` | 00/05_mysql/mysql_connectPool.c:302-365 | which connection is handed out, dropped or made, and when the caller must wait; lists, flags, total and bound stay right, even if a closed handle comes back |
| `ConnectPool.Pool.Reuse` | 00/05_mysql/mysql_connectPool.c:306-343 | the first free connection, reconnected or dropped |
| `ConnectPool.Pool.FindHandle` | 00/05_mysql/mysql_connectPool.c:372-382 | the first used connection with the handle |
| `ConnectPool.Pool.BypassUsed` | 00/05_mysql/mysql_connectPool.c:374-379 | the connection leaves the used list, nothing else moves |
| `ConnectPool.Pool.Release` | 00/05_mysql/mysql_connectPool.c:367-406 | the connection goes back to the free list or away; an unknown handle changes nothing |
| `ConnectPool.Pool.Close` | 00/05_mysql/mysql_connectPool.c:409-434 | every connection is closed once and nothing is left |
| `PoolRuns.SoundKept` | 00/05_mysql/mysql_connectPool.c:302-406 | a connection handed out was in nobody's hands; no call puts a handle into the pool twice or makes it too large |
| `PoolRuns.ReleaseThenGet` | 00/05_mysql/mysql_connectPool.c:302-406 | the handle released last is handed out next, with the pool as it was; if it is dead, a new one or none |
| `PoolRuns.AlwaysSound` | 00/05_mysql/mysql_connectPool.c:302-406 | so over any run of calls |
| `PoolRuns.Run` | 00/05_mysql/mysql_connectPool.c:302-406 | any run of calls with any answers gives the outcomes and the two lists of handles that the calls determine; lists disjoint, flags and total right, bound kept |
| `StrTok.SkipDelim` | 00/06_dns/dns.c:88 | past the delimiters |
| `StrTok.TokenEnd` | 00/06_dns/dns.c:101 | up to the next delimiter |
| `StrTok.PiecesGlued` | 00/06_dns/dns.c:88-102 | the pieces have no delimiter inside and glued together give the text |
| `StrTok.GluedPieces` | 00/06_dns/dns.c:88-102 | and only they do |
| `StrTok.NonEmptyParts` | 00/06_dns/dns.c:88-102 | all pieces but the empty ones stay, in order |
| `StrTok.TokensArePieces` | 00/06_dns/dns.c:88-102 | strtok gives the non-empty pieces between delimiters, in order |
| `DnsName.NameLength` | 00/06_dns/dns.c:71-75 | the encoded name takes two bytes more than the host name, less one for each empty label |
| `DnsName.CreateQuestion` | 00/06_dns/dns.c:65-106 | every write is inside the buffer; what is written is the length-prefixed labels and the end; it fills the buffer exactly without empty labels |
| `DnsName.DecodeCoded` | 00/06_dns/dns.c:90-102 | a reader by sections 3.1 and 4.1.2 of RFC 1035 gets the labels back |
| `DnsName.DecodeIff` | 00/06_dns/dns.c:90-102 | it does so exactly if no label is longer than 63 bytes |
| `DnsName.EncodesLabels` | 00/06_dns/dns.c:65-106 | for any host name with a label, the buffer decodes to its non-empty labels exactly if none is too long |
| `DnsName.HeadBack` | 00/06_dns/dns.c:49-62 | a reader by section 4.1.1 of RFC 1035 finds a standard query with one question that asks for recursion |
| `DnsName.BuildRequest` | 00/06_dns/dns.c:113-136 | header, name, type and class in this order, zeros behind |
| `DnsName.AsksForAddress` | 00/06_dns/dns.c:113-136 | the address record is asked for exactly if no byte of the name was left unwritten, or those bytes spell that question |
| `DnsName.Query` | 00/06_dns/dns.c:162-168 | a reader gets the header, the non-empty labels, and the type and class that the unwritten bytes and what follows spell, exactly if no label is too long |

The state machine of the thread pool is defined by `ThreadPool.Enabled` and `ThreadPool.Do`; its
invariants are the predicates conjoined in `ThreadPool.Inv`, and `ThreadPool.Conserved`. What an event
makes of the TCP table is `TcpSpec.Follows`, its invariant `TcpSpec.Good`. What a resume makes of the scheduler is
`Scheduler.Look.Turn`, a round of the main loop `Scheduler.Round`. The scheduler's invariant is `Scheduler.Schedule.Inv`, the tree
invariants are `RedBlack.RedBlackTree`, `SearchOrder.Ascending` and `LinkedTrees.Head.Holds`.

## Left out

- Deletion from the sentinel tree (`kvs_rbtree.c:180-300`, RDEL): it reads the parent of the sentinel, which is
  unset when a black leaf that is not the root is unlinked; removal is proved for `nty_tree.h`.
- The array engine (`kvs_array.c`): its deletion shrinks the total without compacting.
- Scheduler.Schedule.PollBegin: does not model several descriptors in one poll, or a timeout other than 1, which
  no caller passes; with timeout 1 the code never enters a polling coroutine in the sleep tree.
- Scheduler.Schedule.Run: does not model `sleep` with a positive time, which inserts into the sleep tree without a
  yield; `DeadlineQueue` covers the sleep tree. Context switching and stack copying are one atomic step.
- Scheduler.Schedule.OneRound: leaves out step 1, which wakes sleepers with a positive time; `DeadlineQueue` covers it.
- Scheduler.Schedule.Epoll: does not model the trigger descriptor, which nobody writes to, or interrupted waits.
- DeadlineQueue.SchedSleepdown: does not model the wrap-around of 64-bit microseconds.
- SleepRuns.Run: leaves out a sleep of time 0 at the very microsecond of somebody's deadline, after which
  `SleepRuns.DoSleep` shows the tree is not safe.
- DeadlineQueue.DrainExpired: does not interleave the resumed coroutines, which can only add later deadlines.
- SkipTable.SkipList.RandomLevel: does not model the distribution of `rand`, only its outcomes.
- ThreadPool.ShutdownKept: workers are a fixed set; freeing their structures while shutdown walks the list is not
  modelled. The task list is a sequence, and its insertion two steps: reading the head and writing it.
- TcpStreams.Table.Process: does not model encoding, rings that are full, or the partial reads of `nrecv`.
- TcpStreams.Table.Open: does not model `nbind` and `nlisten` on a descriptor that `naccept` returned, which
  would set the status of a connected stream back.
- KvsHash.HashTable.Set: requires a slot inside the table (see `KvsHash.SlotInTable`); the sum of a key's bytes is
  not reduced to 32 bits, plain `char` is signed, and the table starts with empty chains although
  `kvs_hash_create` does not clear them.
- KvsHash.HashTable.Lookup: requires a slot inside the table, as do Get, Del and Exist; the code reads outside it.
- KvsHash.HashTable.Mod: requires a value for a present key, as the code copies it without a test.
- Kvstore.Server.Serve: leaves out RDEL and the array commands, and keeps the two requirements of the hash table.
- CommandLine.SplitToken: requires at most 128 tokens, as the code does not test for more.
- CommandLine.Protocol: does not follow the array commands.
- Contacts.Book.Load: does not model names and numbers longer than the buffers `fscanf` writes to.
- ConnectPool.Pool.Get: is one pass under the mutex; the retry after a second is the caller's. Connections that
  `mysql_init` cannot make are connections that fail.
- Checksum.NgChecksum: is stated for a little-endian host and a sum that fits the C type.
- DnsName.BuildRequest: requires room for the message, as `dns_build_requestion` uses `rlen` only to clear the buffer.
- DnsName.Query: requires the same room, and a host name with a label.
- DnsName.CreateQuestion: does not model host names without any label, for which nothing is written, beyond that.
- Allocation failures, leaks, printing, `RB_AUGMENT` (empty here), and reading of freed or uninitialised memory.
- Web servers, WebSocket framing, reactor and echo examples, word counters and benchmarks.
