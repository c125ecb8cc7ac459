# A verified model of the ESP-Hosted event loop and network components

The project models the parts of the repository in which state is shared between many callers
and proves what they promise for every input, every allocation outcome and every run.

**The event loop** (`esp_event.c`). Handlers are kept in a three-level structure: loop nodes hold
base nodes, base nodes hold id nodes, and each level has its own handler list. `Registry` holds
that structure as a value and each operation as a function on it. `RegistryNodes`,
`EventLoopNodes` and `EventLoopWalks` are the linked nodes and the methods that edit and walk
them in place; they are proved to compute those functions, to leave everything as it was when an
allocation fails, and to account for every heap block. `RegistryOrder`, `RegistryRemoval` and
`RegistryDispatch` prove that the structure always agrees with a flat list of live registrations
in the order they were made, so that the nested walk of the dispatch loop calls the matching
handlers in registration order. `RegistryRuns` and `RegistryLegacy` state this for whole runs of
calls, `RegistryRuns` against a reference list computed from what callers saw alone.
`RegistryOverwrite` tells from the list of registrations alone when a legacy registration overwrites
and when it appends. `EventLoops`
is the loop object: registration, the bounded queue with heap-copied payloads, dispatch, the tick
budget (`EventRuns`), creation and deletion. `WifiDefault` is a client that installs a bundle of
handlers or none.

**Network interfaces** (`esp_netif`). `NetInterfaces` is one interface with its DHCP client and
the addresses it announced; `NetifManager` is the list of interfaces and the choice of the default
route; `NetifRuns` states their invariants for whole runs; `DhcpsPool` is the address pool check of the DHCP server, whose unsigned arithmetic wraps.

**Ownership.** `L2Tap` is the L2 TAP socket table with its receive queues, `Mempool` the pooled
allocator (the branch with `H_USE_MEMPOOL` set; the shipped configuration sets it to 0).

How things are represented:

- A heap pointer is the number of the allocation request that made it (`Allocator.Heap`). An
  arbitrary oracle decides which requests are granted. Freeing a block demands that it is live, so
  a verified method frees nothing twice. Only the L2 TAP filter, which in the code can free a buffer
  twice, uses the unchecked form and counts how often it does. A handler's argument is the word stored in its context's
  block.
- A registration's context number is also its age. `flat`, the list of live registrations, is
  ghost state of the loop; the nodes are real state.
- `NULL` as an event base is 0; the private pointer that stands for "any base" inside `esp_event.c`
  is 1, and callers cannot pass it.
- A list of nodes is a sequence that methods reassign; each node knows the node whose list it was
  made for.
- What other tasks, interrupts, the clock, the operating system and lwIP do are parameters: a run
  of the loop is given a script of turns, lwIP decides whether it reports an address back
  (`notify`) or drops one (`drops`), and the operating system decides whether objects can be made.
- lwIP is not part of the repository. `netif_add` is taken to clear an interface's flags and client
  data and to set its address again, as lwIP documents.

Where the code does not meet what one would expect, the exact condition is proved:

- A legacy registration is documented to overwrite an earlier one of the same function under the
  same key. It does so exactly when that one is in the handler list the key is added to now
  (`LegacyOverwrite`): `LegacyAgain` says after which registrations it still is, `LegacyAppends`
  after which it is not, and `RepeatedIsDoubled` and `OtherBaseDoubles` are runs that end with the
  function registered twice. One legacy unregister call then takes out both or only the older one,
  as `BothOrOne` shows.
- `WifiDefault.DefaultHandlers.SetHandlers`: succeeds if and only if the bundle is installed already
  or all of the blocks its seven registrations ask for are granted.
- `RoomExactly`: a pooled block has room for more than the requested size if and only if that size
  is below 2^32 - 8; above it, 32-bit alignment wraps around.
- `ChargedIsElapsed`: the tick budget is charged the time that passed if and only if no turn took
  2^32 ticks or more; `LongTurnIsFree` is a run in which one did.
- `NetifManager.Manager.Start`: without a manual override, a start that reaches the default-route
  update leaves the default the best interface if and only if the interface was not itself the
  default, or comes up by itself; `StartOfTheDefault` is a run in which it is left wrong.
- `NetInterfaces.NetIf.Add`: a start keeps the DHCP client's status truthful (started exactly while
  lwIP runs it, and only on an interface that is up) if and only if the status is not "started" at
  the time. Starting an interface that is not added yet is enough only if it is also never raised
  while not added: `RaisedWhileStopped` is a run that never starts a started interface and breaks it.
- `L2Tap.Tap.EthFilter`: the buffer of a nonempty frame that some socket takes is held or freed
  exactly once if and only if every taker after the first has room in its queue. Two sockets with
  the filter they are opened with are enough to break it: `FreedWhileHeld` is such a run. The buffer
  of an empty frame is lost if and only if every taker has room (`EmptyFrameIsLost`).
- `L2Tap.Tap.Rebind`: rebinding a socket keeps (driver, filter) unique if and only if its filter is
  0, its driver does not change, or no open socket has the pair; `ReboundToShare` is a run in which
  one has.

## Model

| member | source | states |
|---|---|---|
| RegistryOrder.AddTreeGrows | esp_submodules/extra_components/esp_event/esp_event.c:211-321 | every registration, whichever nodes it opens, keeps the shape (no empty node, unique ids, loop level older than base level older than id level, later nodes newer) and adds exactly one registration or, when it overwrites, none |
| RegistryOrder.AddTreeSame | esp_submodules/extra_components/esp_event/esp_event.c:186-200 | a legacy registration of a function already in its target list leaves every node in place |
| RegistryRemoval.RemoveTreeShrinks | esp_submodules/extra_components/esp_event/esp_event.c:323-397 | every unregister call keeps the shape and removes only what it names: the oldest of it always, and all of it when named by instance |
| RegistryDispatch.DispatchOrder | esp_submodules/extra_components/esp_event/esp_event.c:593-621 | the nested walk calls exactly the live registrations that match the event, each once, in registration order |
| RegistryDispatch.RegisterCoupled | esp_submodules/extra_components/esp_event/esp_event.c:722-784 | a registration keeps nodes and flat list in agreement, appending at most one entry |
| RegistryDispatch.UnregisterCoupled | esp_submodules/extra_components/esp_event/esp_event.c:808-849 | an unregister call keeps nodes and flat list in agreement and takes out named entries only, the first named one of the list among them |
| RegistryDispatch.UnregisterInstance | esp_submodules/extra_components/esp_event/esp_event.c:323-397 | unregistering by handle deletes exactly that entry from the flat list, or nothing when the key does not match |
| RegistryDispatch.WalkTreeOver | esp_submodules/extra_components/esp_event/esp_event.c:593-621 | the walk visits the matching registrations without repetition and by increasing age |
| RegistryRuns.ReachableCoupled | esp_submodules/extra_components/esp_event/esp_event.c:211-397 | after any sequence of register and unregister calls, failed ones included, nodes and flat list agree |
| RegistryRuns.ReachableDispatch | esp_submodules/extra_components/esp_event/esp_event.c:593-621 | after any such run, dispatch calls the matching live registrations once each, in registration order |
| RegistryRuns.ReferenceIsFlat | esp_submodules/extra_components/esp_event/esp_event.c:722-867 | the live registrations are the ones an observer of the calls would list: append on success, delete on release |
| RegistryRuns.LoopIsList | esp_submodules/extra_components/esp_event/esp_event.c:593-621 | used through instance handles, the three-level structure cannot be told from a plain list of registrations |
| RegistryLegacy.LegacyRunOnce | esp_submodules/extra_components/esp_event/esp_event.c:186-200 | in runs of legacy calls no handler list ever holds a function twice |
| RegistryLegacy.RegisterOnce | esp_submodules/extra_components/esp_event/esp_event.c:186-200 | one legacy registration keeps every function single in its list; one that overwrites changes no node |
| EventLoops.EventLoop.RunLegacy | esp_submodules/extra_components/esp_event/esp_event.c:186-200 | the same for the nodes of a loop object, over any run of legacy register and unregister calls |
| RegistryLegacy.LegacyUnregister | esp_submodules/extra_components/esp_event/esp_event.c:323-397 | a legacy unregister takes out only entries with its key and function, the oldest always, at most one per handler list, order kept |
| RegistryLegacy.LegacyOverwrite | esp_submodules/extra_components/esp_event/esp_event.c:186-200 | a legacy registration changes no node and no position exactly if the function is in the handler list its key is added to, and then it is live under that key; otherwise one entry is appended. When that is so on the list of registrations alone: RegistryOverwrite.LegacyAgain and LegacyAppends |
| RegistryLegacy.RemoveTreeThin | esp_submodules/extra_components/esp_event/esp_event.c:323-397 | any unregister call takes at most one entry out of each handler list, the first that it names |
| RegistryLegacy.RemoveTreeStops | esp_submodules/extra_components/esp_event/esp_event.c:832-840 | the walk removes from every loop node up to the first that this empties; that one is unlinked and those behind it stay as they are |
| RegistryLegacy.RemoveBasesStops | esp_submodules/extra_components/esp_event/esp_event.c:374-397 | the same for the base nodes of one loop node |
| RegistryLegacy.BothOrOne | esp_submodules/extra_components/esp_event/esp_event.c:832-840 | a run in which one legacy unregister call takes out both registrations of a function, and the same run with the other client gone, in which it stops early and leaves the second |
| RegistryOverwrite.TargetAfter | esp_submodules/extra_components/esp_event/esp_event.c:186-205 | a registration that does not overwrite becomes the last entry of its handler list, and that stays the list for its key |
| RegistryOverwrite.TwiceSame | esp_submodules/extra_components/esp_event/esp_event.c:186-200 | the same legacy registration again overwrites, and writes to the same context as the first |
| RegistryOverwrite.RemoveKeepsOpen | esp_submodules/extra_components/esp_event/esp_event.c:323-397 | no unregister call takes a loop-level or id-level registration that stays live out of the handler list for its key |
| RegistryOverwrite.PartedNotOpen | esp_submodules/extra_components/esp_event/esp_event.c:746-780 | a live registration is not in the handler list for its key once a younger live one parts it from there: any lower one from loop level; a loop-level one or one for an id of the base from base level; a loop-level or base-level one of the base from id level |
| RegistryOverwrite.LegacyAgain | esp_submodules/extra_components/esp_event/esp_event.c:186-200 | over every run, on the list of registrations alone: a function that is live under its key is not added again by a legacy call if every later registration was, for an id-level one, not at loop level and not at base level of the same base; for a loop-level one, at loop level; for a base-level one, at base level with nothing unregistered |
| RegistryOverwrite.LegacyAppends | esp_submodules/extra_components/esp_event/esp_event.c:186-205 | over every run, on the list alone: if every live registration of the function under the key is parted from it by a younger live one, a legacy call appends one entry |
| RegistryOverwrite.RepeatedIsDoubled | esp_submodules/extra_components/esp_event/esp_event.c:746-780 | for every such pair of keys: registering, registering the parting one and registering again leaves the function registered twice |
| RegistryOverwrite.OtherBaseDoubles | esp_submodules/extra_components/esp_event/esp_event.c:287-290 | so does a registration for an id of another base between two base-level ones |
| RegistryNodes.NewInstance | esp_submodules/extra_components/esp_event/esp_event.c:165-178 | a handler node and its context are both made or neither is; a half-made one is freed |
| RegistryNodes.HandlerInstancesAdd | esp_submodules/extra_components/esp_event/esp_event.c:163-209 | the handler list, the argument written, the handle and every heap block, for each allocation outcome |
| RegistryNodes.OverwriteArgument | esp_submodules/extra_components/esp_event/esp_event.c:189-195 | overwriting changes one argument and gives back both blocks of the instance made for it |
| RegistryNodes.HandlerInstancesRemove | esp_submodules/extra_components/esp_event/esp_event.c:323-346 | the first selected handler goes, its node and context are freed once, all other arguments stay |
| RegistryNodes.HandlerInstancesRemoveAll | esp_submodules/extra_components/esp_event/esp_event.c:399-407 | every node and context of a list is freed once and nothing else is |
| RegistryNodes.IdNode.Add | esp_submodules/extra_components/esp_event/esp_event.c:260-261 | an id node's list receives the handler |
| RegistryNodes.IdNode.Remove | esp_submodules/extra_components/esp_event/esp_event.c:352-356 | an id node's list loses the first selected handler |
| RegistryNodes.BaseNode.FindId | esp_submodules/extra_components/esp_event/esp_event.c:221-229 | the last id node with the id, if any |
| RegistryNodes.BaseNode.AddHandler | esp_submodules/extra_components/esp_event/esp_event.c:211-263 | the base node becomes what the registry function says, or stays as it was when an allocation fails |
| RegistryNodes.BaseNode.NewIdNode | esp_submodules/extra_components/esp_event/esp_event.c:231-256 | an unlinked id node with its first handler, or nothing left behind |
| RegistryNodes.BaseNode.RemoveHandler | esp_submodules/extra_components/esp_event/esp_event.c:349-372 | the base node loses what the call names; emptied id nodes are freed |
| RegistryNodes.BaseNode.RemoveAllHandler | esp_submodules/extra_components/esp_event/esp_event.c:409-419 | everything below a base node is freed once |
| RegistryNodes.LoopNode.FindBase | esp_submodules/extra_components/esp_event/esp_event.c:278-290 | the last base node for the base and whether the four opening conditions hold |
| RegistryNodes.LoopNode.AddHandler | esp_submodules/extra_components/esp_event/esp_event.c:265-321 | the loop node becomes what the registry function says, or stays as it was when an allocation fails |
| RegistryNodes.LoopNode.NewBaseNode | esp_submodules/extra_components/esp_event/esp_event.c:291-315 | an unlinked base node with its first handler, or nothing left behind |
| RegistryNodes.LoopNode.RemoveHandler | esp_submodules/extra_components/esp_event/esp_event.c:374-397 | the loop node loses what the call names; emptied base nodes are freed |
| RegistryNodes.LoopNode.RemoveAllHandler | esp_submodules/extra_components/esp_event/esp_event.c:421-431 | everything below a loop node is freed once |
| RegistryNodes.NewLoopNode | esp_submodules/extra_components/esp_event/esp_event.c:756-780 | an unlinked loop node with its first handler, or nothing left behind |
| EventLoopNodes.AddToLoops | esp_submodules/extra_components/esp_event/esp_event.c:746-784 | the whole registration: success exactly when every block it needs is granted, otherwise nodes, live blocks and arguments unchanged |
| EventLoopNodes.RemoveFromLoops | esp_submodules/extra_components/esp_event/esp_event.c:832-840 | the whole unregister walk, which ends at the first loop node it empties, with every freed block accounted for |
| EventLoopNodes.RemoveAllLoops | esp_submodules/extra_components/esp_event/esp_event.c:687-691 | every node and context of the registry is freed once |
| EventLoopWalks.ExecuteLoops | esp_submodules/extra_components/esp_event/esp_event.c:593-621 | the nested dispatch loops execute the handlers of the walk in order, the i-th with the word in the context of the i-th registration |
| EventLoopWalks.FoundIsRegistered | esp_submodules/extra_components/esp_event/esp_event_private.c:31-63 | the search finds a handler exactly if a registration with that key and function is live |
| EventLoopWalks.FindInLoops | esp_submodules/extra_components/esp_event/esp_event_private.c:31-63 | the nested search loops answer whether such a handler is in the nodes |
| EventLoops.RegBlock | esp_submodules/extra_components/esp_event/esp_event.c:172-181 | the context of every live registration is a block the registry owns |
| EventLoops.RegisteredIs | esp_submodules/extra_components/esp_event/esp_event.c:722-784 | a successful registration appends one entry with its own argument, or gives an entry under the same key a new argument |
| EventLoops.UnregisteredIs | esp_submodules/extra_components/esp_event/esp_event.c:808-849 | an unregister call takes out named registrations, the first named one of the list always; those that remain keep context and argument |
| EventLoops.EventLoop.RegisterInternal | esp_submodules/extra_components/esp_event/esp_event.c:722-793 | error codes, success exactly when all blocks are granted and how many were asked for, what nodes, flat list and arguments become, that the handle is the newest block, no node changed by an overwrite, nothing changed on failure, no block lost |
| EventLoops.EventLoop.RegisterTwice | esp_submodules/extra_components/esp_event/esp_event.c:186-195 | two legacy registrations of one function under one key in a row leave the list as after the first and the second argument in its context |
| EventLoops.EventLoop.UnregisterInternal | esp_submodules/extra_components/esp_event/esp_event.c:808-849 | error codes, which entries leave the flat list (the oldest named one always), the others keep place and argument, every block freed once |
| EventLoops.EventLoop.InstanceUnregister | esp_submodules/extra_components/esp_event/esp_event.c:861-867 | a null handle is refused; otherwise exactly the entry with that handle and key is deleted |
| EventLoops.EventLoop.IsHandlerRegistered | esp_submodules/extra_components/esp_event/esp_event_private.c:20-68 | true exactly if (base, id, function) is in the list of live registrations |
| EventLoops.EventLoop.CopyData | esp_submodules/extra_components/esp_event/esp_event.c:884-902 | the copy is a fresh block with the caller's bytes, and no queued payload changes |
| EventLoops.EventLoop.Send | esp_submodules/extra_components/esp_event/esp_event.c:910-943 | the post joins the end of the queue, or its payload is freed |
| EventLoops.EventLoop.PostTo | esp_submodules/extra_components/esp_event/esp_event.c:869-955 | exactly which posts are accepted, each with the bytes at the time of the call at the end of the queue; a rejected post leaves queue and live blocks as they were |
| EventLoops.EventLoop.IsrPostTo | esp_submodules/extra_components/esp_event/esp_event.c:958-1003 | up to four bytes travel in the post itself, padded with zeros; acceptance, error codes, no heap use |
| EventLoops.EventLoop.PostRequest | esp_submodules/extra_components/esp_event/esp_event.c:869-1003 | the answer to any post from the room in the queue, the mutex and the next allocation, and the queue and allocator afterwards |
| EventLoops.EventLoop.PostAll | esp_submodules/extra_components/esp_event/esp_event.c:869-1003 | the answers to any sequence of posts, from what waits and which requests are granted at its start |
| EventLoops.EventLoop.PostInstanceDelete | esp_submodules/extra_components/esp_event/esp_event.c:433-445 | exactly the payload of the post is freed, and no registration loses its argument |
| EventLoops.EventLoop.Receive | esp_submodules/extra_components/esp_event/esp_event.c:575-577 | the oldest accepted event leaves the queue with the data it was posted with and its payload changes owner |
| EventLoops.EventLoop.Execute | esp_submodules/extra_components/esp_event/esp_event.c:126-161 | the handlers of one event are exactly its matching registrations, in order, each called with the word in its own context, the event's base and id and the posted bytes |
| EventLoops.EventLoop.DispatchNext | esp_submodules/extra_components/esp_event/esp_event.c:575-627 | one round for the oldest accepted event: one call for each live registration that matches it, by age, with the argument in its context and the posted bytes; its payload freed once |
| EventLoops.EventLoop.Run | esp_submodules/extra_components/esp_event/esp_event.c:561-658 | over a whole run every call, one by one: for event after event in acceptance order the matching registrations with the arguments in their contexts; the answers to all posts that arrive; when the budget ends the run |
| EventLoops.EventLoop.PostAndRun | esp_submodules/extra_components/esp_event/esp_event.c:561-658 | any live registration, a post that it matches and any run that gets to the posted event: its function is called with its argument and the posted bytes |
| EventLoops.EventLoop.RegisterPostRun | esp_submodules/extra_components/esp_event/esp_event.c:561-793 | the same from the registration on: the argument it was given is the one the handler is called with |
| EventLoops.EventLoop.DeleteNodes | esp_submodules/extra_components/esp_event/esp_event.c:685-691 | all nodes and contexts are freed once, the queue keeps its payloads |
| EventLoops.EventLoop.Delete | esp_submodules/extra_components/esp_event/esp_event.c:660-720 | deletion ends, and every node, context, payload and the instance is freed exactly once and nothing else is; no registration's context and no queued payload is left |
| EventLoops.Create | esp_submodules/extra_components/esp_event/esp_event.c:449-552 | error codes for each missing object; a failed creation leaves no block behind |
| EventPosts.TraceCat | esp_submodules/extra_components/esp_event/esp_event.c:575-627 | two runs in a row produce the trace of the events of both |
| EventPosts.TraceAt | esp_submodules/extra_components/esp_event/esp_event.c:575-627 | the trace call by call: the i-th matching registration of the k-th event is called at its offset, with the argument in its context and that event |
| EventRuns.TracedAt | esp_submodules/extra_components/esp_event/esp_event.c:575-627 | the calls that a run adds are, one by one, those of the events it dispatched |
| EventRuns.CallsMadeHas | esp_submodules/extra_components/esp_event/esp_event.c:575-627 | every registration that matches an event of a run is called for it with its argument |
| EventRuns.TracedDispatch | esp_submodules/extra_components/esp_event/esp_event.c:575-627 | one more dispatch extends the trace of a run by the calls of the next accepted event |
| EventRuns.AcceptedSnoc | esp_submodules/extra_components/esp_event/esp_event.c:945-954 | a post adds to the accepted events exactly when it is answered with success |
| EventRuns.BudgetStep | esp_submodules/extra_components/esp_event/esp_event.c:631-645 | what one turn of wait, mutex and handlers takes off the remaining ticks, across counter wrap-around |
| EventRuns.ChargedIsElapsed | esp_submodules/extra_components/esp_event/esp_event.c:567-573 | the budget is charged the true elapsed time if and only if every turn was shorter than 2^32 ticks |
| EventRuns.RunTime | esp_submodules/extra_components/esp_event/esp_event.c:567-645 | with budget T >= 1 a run ends in less than 2T ticks plus the last mutex wait and dispatch; with T = 0 it dispatches one event at most |
| EventRuns.RunReturns | esp_submodules/extra_components/esp_event/esp_event.c:575-658 | a finite run returns: in less than 2T ticks without an event, otherwise not before T ticks and in less than 2T plus the last mutex wait and handlers |
| EventRuns.LongTurnIsFree | esp_submodules/extra_components/esp_event/esp_event.c:632-633 | a run in which a turn of 2^32 ticks is charged nothing |
| WifiDefault.DefaultHandlers.RegisterAll | esp_submodules/extra_components/esp_wifi/src/wifi_default.c:192-235 | the bundle is registered up to the first failure, each pair once; it succeeds if and only if every block the seven registrations ask for is granted |
| WifiDefault.DefaultHandlers.SetHandlers | esp_submodules/extra_components/esp_wifi/src/wifi_default.c:185-255 | success if and only if the bundle is installed already or every block its registrations ask for is granted, 14 to 35 of them; the flag is set exactly on success, with every pair registered exactly once, otherwise none; other registrations keep their order |
| WifiDefault.PlannedAtMost | esp_submodules/extra_components/esp_wifi/src/wifi_default.c:192-235 | after k registrations of the bundle between 2k and 5k blocks were asked for |
| WifiDefault.OthersMembers | esp_submodules/extra_components/esp_wifi/src/wifi_default.c:162-255 | the others are exactly the registrations outside the bundle, in the order of the list |
| WifiDefault.DefaultHandlers.ClearHandlers | esp_submodules/extra_components/esp_wifi/src/wifi_default.c:162-183 | no pair of the bundle is left, also from a half-installed one; other registrations keep their order |
| WifiDefault.DefaultHandlers.ClearDriverAndHandlers | esp_submodules/extra_components/esp_wifi/src/wifi_default.c:285-306 | the interface's slots are emptied and the bundle goes with the last used slot |
| WifiDefault.OthersRegister | esp_submodules/extra_components/esp_wifi/src/wifi_default.c:162-255 | a registration by anyone of anything outside the bundle leaves the bundle as installed as it was |
| WifiDefault.OthersUnregister | esp_submodules/extra_components/esp_wifi/src/wifi_default.c:162-255 | so does an unregister call that names nothing of the bundle |
| WifiDefault.DefaultHandlers.OtherRegisters | esp_submodules/extra_components/esp_wifi/src/wifi_default.c:26-26 | the flag stays true to the facts when another client registers on the default loop |
| WifiDefault.DefaultHandlers.OtherUnregisters | esp_submodules/extra_components/esp_wifi/src/wifi_default.c:26-26 | and when another client unregisters |
| WifiDefault.RegisterStep | esp_submodules/extra_components/esp_wifi/src/wifi_default.c:192-235 | a pair that was not registered is appended once, never merged into another registration |
| WifiDefault.UnregisterStep | esp_submodules/extra_components/esp_wifi/src/wifi_default.c:162-175 | one unregister call takes out the only registration of its pair |
| NetInterfaces.HonestMeans | esp_submodules/extra_components/esp_netif/lwip/esp_netif_lwip.c:1273-1279 | ip_changed is false exactly when the triple equals the one set at creation or announced last, with no address lost since |
| NetInterfaces.NetIf.AddressCallback | esp_submodules/extra_components/esp_netif/lwip/esp_netif_lwip.c:1241-1295 | an address that differs from ip_info is announced once and truly; losing one starts the timer |
| NetInterfaces.NetIf.StartIpLostTimer | esp_submodules/extra_components/esp_netif/lwip/esp_netif_lwip.c:1332-1355 | the timer runs afterwards if it ran or there is an address to lose |
| NetInterfaces.NetIf.IpLostTimer | esp_submodules/extra_components/esp_netif/lwip/esp_netif_lwip.c:1297-1330 | an expiry on a listed interface without address forgets what was announced; otherwise the history stays |
| NetInterfaces.NetIf.LwipSetAddr | esp_submodules/extra_components/esp_netif/lwip/esp_netif_lwip.c:1241-1295 | setting an address announces nothing if it is zero or equal to ip_info, whether or not lwIP calls back |
| NetInterfaces.NetIf.SetIpInfo | esp_submodules/extra_components/esp_netif/lwip/esp_netif_lwip.c:1774-1830 | refused unless DHCP is stopped; on an up interface with the flag and a nonzero triple exactly one truthful event, despite the re-entrant callback |
| NetInterfaces.NetIf.ConnectedAction | esp_submodules/extra_components/esp_netif/esp_netif_handlers.c:40-79 | a valid static address of a stopped client is announced once and truly |
| NetInterfaces.NetIf.DhcpcStart | esp_submodules/extra_components/esp_netif/lwip/esp_netif_lwip.c:1409-1457 | error codes, and the client's status stays truthful: started only on an up interface and with lwIP's client running |
| NetInterfaces.NetIf.DhcpcStop | esp_submodules/extra_components/esp_netif/lwip/esp_netif_lwip.c:1357-1392 | error codes, and the client ends stopped with a truthful status and no announcement |
| NetInterfaces.NetIf.Add | esp_submodules/extra_components/esp_netif/lwip/esp_netif_lwip.c:1037-1120 | a start announces nothing and keeps the client's status truthful if and only if that is not "started"; all outcomes of its DHCP branches |
| NetInterfaces.NetIf.Remove | esp_submodules/extra_components/esp_netif/lwip/esp_netif_lwip.c:1137-1179 | a stop leaves the interface down, its client not running, its status truthful, and starts the lost-address timer only for an address that lwIP drops and reports |
| NetInterfaces.NetIf.Raise | esp_submodules/extra_components/esp_netif/lwip/esp_netif_lwip.c:1617-1637 | bringing an interface up announces nothing, whatever lwIP reports |
| NetInterfaces.NetIf.Lower | esp_submodules/extra_components/esp_netif/lwip/esp_netif_lwip.c:1643-1690 | bringing an interface down announces nothing and leaves a truthful DHCP status |
| NetInterfaces.RaisedWhileStopped | esp_submodules/extra_components/esp_netif/lwip/esp_netif_lwip.c:1037-1120 | a run that never starts a started interface and ends with status "started" and no client running |
| NetifManager.NextAt | esp_submodules/extra_components/esp_netif/esp_netif_objects.c:123-142 | the successor of the i-th interface is the next one, or nothing at the end |
| NetifManager.VisitsAll | esp_submodules/extra_components/esp_netif/esp_netif_objects.c:123-142 | stepping from NULL visits every interface exactly once and then ends |
| NetifManager.Manager.NextUnsafe | esp_submodules/extra_components/esp_netif/esp_netif_objects.c:123-142 | the loop computes that successor |
| NetifManager.Manager.IsListed | esp_submodules/extra_components/esp_netif/esp_netif_objects.c:144-162 | membership in the list |
| NetifManager.Manager.FromKey | esp_submodules/extra_components/esp_netif/esp_netif_objects.c:164-182 | an interface's own key finds it and a key nobody has finds nothing |
| NetifManager.Manager.AddToList | esp_submodules/extra_components/esp_netif/esp_netif_objects.c:61-81 | the interface becomes the first one, keys stay distinct and the counter counts the list |
| NetifManager.Manager.RemoveFromList | esp_submodules/extra_components/esp_netif/esp_netif_objects.c:84-107 | exactly this interface leaves the list, the counter follows, an unlisted one is reported |
| NetifManager.Manager.New | esp_submodules/extra_components/esp_netif/lwip/esp_netif_lwip.c:706-805 | which configurations are refused, duplicate keys among them; entries and keys stay distinct; an interface that cannot be configured leaves nothing |
| NetifManager.Manager.Destroy | esp_submodules/extra_components/esp_netif/lwip/esp_netif_lwip.c:901-922 | the interface ends down and leaves the list; a manual default persists unless it is this interface, and then the best one is chosen |
| NetifManager.Manager.Scan | esp_submodules/extra_components/esp_netif/lwip/esp_netif_lwip.c:369-385 | the scan finds an up interface of highest priority, or none if none is up |
| NetifManager.Manager.UpdateDefault | esp_submodules/extra_components/esp_netif/lwip/esp_netif_lwip.c:330-393 | a listed manual override persists; otherwise the best interface after a stop, and the one that came up unless the old default has strictly higher priority |
| NetifManager.Manager.SetDefaultNetif | esp_submodules/extra_components/esp_netif/lwip/esp_netif_lwip.c:405-408 | the manual override takes effect |
| NetifManager.Manager.Up | esp_submodules/extra_components/esp_netif/lwip/esp_netif_lwip.c:1617-1639 | without an override the interface becomes the default unless the old one is listed, up and of strictly higher priority, and the default stays an up interface of highest priority; a listed override persists |
| NetifManager.Manager.Down | esp_submodules/extra_components/esp_netif/lwip/esp_netif_lwip.c:1643-1692 | without an override there is none afterwards and the default is the best interface, or null when none is up |
| NetifManager.Manager.Start | esp_submodules/extra_components/esp_netif/lwip/esp_netif_lwip.c:1037-1120 | which starts reach the update; without an override one that does leaves the default the best interface if and only if the interface was not the default or comes up by itself |
| NetifManager.StartOfTheDefault | esp_submodules/extra_components/esp_netif/lwip/esp_netif_lwip.c:345-356 | a run in which the default is started again, ends down and is still the default |
| NetifManager.Manager.Stop | esp_submodules/extra_components/esp_netif/lwip/esp_netif_lwip.c:1137-1179 | without an override there is none afterwards and the default stays the best interface, also when the stop finds the interface down |
| NetifManager.Manager.Connected | esp_submodules/extra_components/esp_netif/esp_netif_handlers.c:35-80 | a DHCP client that was not started before is started, or stays as it was with the addresses cleared when lwIP refuses; a static address is announced once and truly after the interface came up; otherwise addresses and status stay; default and DHCP status stay right |
| NetifRuns.Do | esp_submodules/extra_components/esp_netif/lwip/esp_netif_lwip.c:1037-1692 | every disciplined step has its effect on the interface and keeps honest histories, true DHCP status and the right default; no override appears by itself |
| NetifRuns.Run | esp_submodules/extra_components/esp_netif/lwip/esp_netif_lwip.c:1037-1830 | over any run in which starts find the interface not added and raises find it added: announcements are honest, a client is started exactly while lwIP runs it on an up interface, and without an override the default is the best interface |
| DhcpsPool.InvertedWraps | esp_submodules/extra_components/esp_netif/lwip/esp_netif_lwip.c:2262-2264 | within one /24 the wrapped difference is at most the lease limit exactly if start does not exceed end and the span is at most the limit |
| DhcpsPool.SetPool | esp_submodules/extra_components/esp_netif/lwip/esp_netif_lwip.c:2235-2269 | an enabled pool is stored if and only if start <= end, the span is at most the limit, both ends are in the local /24 and the local address is outside |
| DhcpsPool.WrapNeedsSegment | esp_submodules/extra_components/esp_netif/lwip/esp_netif_lwip.c:2255-2264 | without the segment check an inverted pool would pass the span check |
| L2Tap.UniqueMatch | esp_submodules/extra_components/esp_netif/vfs_l2tap/esp_vfs_l2tap.c:178-183 | with unique nonzero filters a frame whose type is no length matches at most one socket |
| L2Tap.LengthsMatchTwice | esp_submodules/extra_components/esp_netif/vfs_l2tap/esp_vfs_l2tap.c:180-183 | a frame whose type is a length can match two sockets with different filters |
| L2Tap.RebindUnique | esp_submodules/extra_components/esp_netif/vfs_l2tap/esp_vfs_l2tap.c:368-378 | exactly when rebinding keeps driver and filter unique |
| L2Tap.Tap.EthFilter | esp_submodules/extra_components/esp_netif/vfs_l2tap/esp_vfs_l2tap.c:172-202 | for every table, socket by socket: a taker with room gets the frame at the back of its queue, with its bytes if it is the first taker and as a mark otherwise, and nothing else changes; the buffer of a nonempty frame that is taken is held or freed exactly once if and only if every taker after the first has room; no other buffer is touched |
| L2Tap.FilteredQueue | esp_submodules/extra_components/esp_netif/vfs_l2tap/esp_vfs_l2tap.c:172-202 | the same for the table as a value |
| L2Tap.FirstInFirstOut | esp_submodules/extra_components/esp_netif/vfs_l2tap/esp_vfs_l2tap.c:93-133 | over any turns at a socket: what the reads took out, followed by what waits, is what waited before, followed by what was received, in the order of arrival |
| L2Tap.Tap.Serve | esp_submodules/extra_components/esp_netif/vfs_l2tap/esp_vfs_l2tap.c:93-133 | over any run of arrivals and reads the bytes that reads return are those that waited and then those that arrived, first in, first out and cut to the reader's buffer; the rest waits in the same order; the run ends early only before a frame whose buffer would be freed at a later taker |
| L2Tap.PlacedAndFreed | esp_submodules/extra_components/esp_netif/vfs_l2tap/esp_vfs_l2tap.c:184-193 | places and frees of a buffer together are one plus the later takers with a full queue |
| L2Tap.OwnedOnce | esp_submodules/extra_components/esp_netif/vfs_l2tap/esp_vfs_l2tap.c:184-193 | the buffer is in exactly one place if and only if every taker after the first has room |
| L2Tap.FilteredAt | esp_submodules/extra_components/esp_netif/vfs_l2tap/esp_vfs_l2tap.c:172-202 | with one taker the frame is queued at the back there or freed once, and no other socket changes |
| L2Tap.NoFrees | esp_submodules/extra_components/esp_netif/vfs_l2tap/esp_vfs_l2tap.c:184-188 | the buffer is never freed on the way if and only if every taker has room |
| L2Tap.FreedWhileHeld | esp_submodules/extra_components/esp_netif/vfs_l2tap/esp_vfs_l2tap.c:172-202 | a run of two freshly opened sockets on one driver that frees a buffer while a queue holds it |
| L2Tap.ReboundToShare | esp_submodules/extra_components/esp_netif/vfs_l2tap/esp_vfs_l2tap.c:368-378 | a run in which rebinding makes two open sockets share driver and filter |
| L2Tap.Tap.PopRxQueue | esp_submodules/extra_components/esp_netif/vfs_l2tap/esp_vfs_l2tap.c:105-133 | the bytes of the first frame are delivered and its buffer freed; a closing mark is put back; when the receive blocks |
| L2Tap.Tap.Read | esp_submodules/extra_components/esp_netif/vfs_l2tap/esp_vfs_l2tap.c:260-279 | error numbers, the bytes read, exactly when the call keeps waiting, and that every buffer stays in one place or is freed once |
| L2Tap.Tap.Open | esp_submodules/extra_components/esp_netif/vfs_l2tap/esp_vfs_l2tap.c:205-228 | the first ready socket opens without filter and driver, and filters stay unique |
| L2Tap.Tap.CleanTask | esp_submodules/extra_components/esp_netif/vfs_l2tap/esp_vfs_l2tap.c:281-300 | the queue ends empty with every buffer in it freed exactly once |
| L2Tap.Tap.Close | esp_submodules/extra_components/esp_netif/vfs_l2tap/esp_vfs_l2tap.c:302-332 | success frees the queued buffers once and makes the socket ready; a failed close leaves it closing with its buffers |
| L2Tap.Tap.SetFilter | esp_submodules/extra_components/esp_netif/vfs_l2tap/esp_vfs_l2tap.c:338-364 | error numbers, and opened sockets never come to share driver and nonzero filter |
| L2Tap.Tap.Rebind | esp_submodules/extra_components/esp_netif/vfs_l2tap/esp_vfs_l2tap.c:368-401 | rebinding keeps them unique if and only if the filter is 0, the driver stays, or nobody else has the pair |
| L2Tap.Tap.EmptyFrameIsLost | esp_submodules/extra_components/esp_netif/vfs_l2tap/esp_vfs_l2tap.c:141-148 | the buffer of a frame without bytes is lost, even after its socket is closed, if and only if every taker had room |
| Mempool.Aligned | esp_submodules/extra_components/mempool/mempool.h:23-27 | the result is a multiple of the alignment within 32 bits |
| Mempool.RoomExactly | esp_submodules/extra_components/mempool/mempool.h:23-27 | a block has room for more than the requested size if and only if that size is below 2^32 - 8, and then wastes at most 8 bytes |
| Mempool.NegativeRefused | esp_submodules/extra_components/mempool/mempool.c:91-92 | the signed request compared as unsigned is served exactly if it fits, and which negative ones pass for huge blocks |
| Mempool.Create | esp_submodules/extra_components/mempool/mempool.c:30-63 | a pool is made or no block is left behind, also when the first block was misaligned |
| Mempool.Pool.Alloc | esp_submodules/extra_components/mempool/mempool.c:86-136 | free and outstanding blocks stay disjoint and together are the fresh allocations; the block handed out has room |
| Mempool.Pool.Free | esp_submodules/extra_components/mempool/mempool.c:138-157 | a block given back moves from outstanding to the free list |
| Mempool.Pool.Destroy | esp_submodules/extra_components/mempool/mempool.c:65-84 | every free-listed block and the pool are freed exactly once, outstanding blocks are left alone |

## Left out

- Handlers that register or unregister while their own event is dispatched: the walk may then read a node that was just freed, so dispatch is stated for a registry that is fixed while one event runs.
- Concurrency inside an operation: the loop's mutex and the critical sections are taken to work, so operations of several tasks interleave as wholes; the interval inside `l2tap_open` between taking a socket and resetting its filter is not modelled.
- A post that blocks on a full queue is one that arrives when it is accepted or gives up; how long callers wait is not modelled, nor is the difference between the running task's zero wait and other waits.
- `esp_event_is_handler_registered` gives a mutex it never took; mutexes are not state of the model.
- `running_task` is kept as the code keeps it, set even after a run whose budget expired; nothing is proved from it.
- RegistryOverwrite.LegacyAgain: at base level it covers only later base-level registrations and no unregister call; whether a registration for an id of another base closes a base-level list depends on which of the nodes that base has, and unregistering the last node can close one again.
- RegistryOverwrite.LegacyAppends: the condition on the list is sufficient, not necessary; a node boundary can outlive the registration that made it, which the list no longer shows (LegacyOverwrite is exact on the nodes).
- RegistryLegacy.LegacyRunOnce: says nothing across lists, because a call that opens a new node does not look for the function in older ones.
- The allocator gives zeroed blocks of unlimited size and never reuses an address; sizes matter only in the pooled allocator.
- The event loop's queue, mutex and task are not heap blocks of the model; `Create` takes the outcome of making them as parameters.
- Handlers do not write to the event data they are given.
- Profiling, the dump of the loop, logging and the message for events without handlers.
- The default loop's own pointer: `WifiDefault` works on one live default loop that nobody deletes meanwhile.
- The Wi-Fi handlers' bodies, drivers and the interface's destruction after `ClearDriverAndHandlers`; NAN handlers are compiled out.
- NetifManager.Manager.New: a failed `strdup` of the key is not modelled, nor are the heap blocks of an interface; `made` stands for the outcome of its allocations.
- NetInterfaces.NetIf.IpLostTimer: does not claim a got-IP event after every lost address; lwIP may drop an address without the old one being reset.
- NetifRuns.Run: covers listed interfaces and ends before the first step that is not disciplined; what a start that leaves the default route behind does to later steps is not claimed.
- NetifManager.Manager.Start: makes no claim about the default route for a start that ends early in the DHCP-server branch, because that path can set the interface up without an update.
- Failing to post an IP event is only logged by the code; the history records what was announced.
- The old-IP setter as an application call, PPP, bridges, SNTP, IPv6, NAPT, DNS servers, gratuitous ARP and hostnames.
- lwIP's own record of its default interface, which the code does not clear when no interface is up.
- L2Tap.Tap.Read: says when a blocking read keeps waiting, but the waiting task's later wake-up, by a frame or by the closing mark, is not modelled.
- Transmission on a tap socket, select, changing its blocking mode, and the getters of the socket table.
- Mempool.Pool.Free: requires that the block is outstanding, because the code cannot tell and would corrupt its free list.
- Locks, statistics and clearing of the pooled blocks.
- DhcpsPool.SetPool: addresses are in host byte order; the other options of the call are left out.
- FreeRTOS, SPI, GPIO, OTA and timer wrappers, smart configuration and the remote Wi-Fi calls, which forward or declare only.
