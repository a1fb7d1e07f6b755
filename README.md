# celestial-srv6: a Dafny model of the SRv6 routing core

This project models, in Dafny, the parts of celestial-srv6 that decide where
packets go and how routes are shown:

- **Node addresses.** A node `(shell, id)` is packed into the four bytes
  `10, shell, (id >> 6) & 0xFF, ((id << 2) & 0xFF) + 2` and written as the IPv6
  text `fd00::a:<shell>:<b3>:<b4>` or the IPv4 text `10.<shell>.<b3>.<b4>`
  (modules `AddressCodec`, `AddSrv6`, `AnimationUi`). Route reports are decoded
  back to nodes (`RouteServer`).
- **The SRv6 route manager** of a node (`srv6_route_manager.py`, modules
  `PathJson`, `PathProcessing`, `RouteUpdaters`, `RouteManager`). It turns a
  path-service reply into a destination plus an intermediate segment list. It
  keeps a cache of active routes with their kernel routes and one updater
  thread per destination. It expires idle routes and reacts to traffic. The
  operations are functions on a `Table` that keep an invariant, and the class
  `Router` performs them in place, proved to agree with those functions. Both
  take a `Variant`: `AsWritten` is the manager as the source has it (hop ids
  up to 0xFFFF, registry pruned of every uncached destination), `Corrected`
  the one the first two findings below call for. Every invariant is proved for both;
  one updater per destination holds only for `Corrected`. Both take an updater
  thread's exit as one step; the window the source leaves there is the third
  finding.
- **A shell of the constellation** (`shell.py`, modules `ShellLinks`,
  `ShellPaths`, `ShellDiff`, `Shells`). This covers:
  - the +GRID inter-satellite links;
  - the ground-station uplink choice;
  - Floyd–Warshall and the path matrix over satellites and ground stations;
  - the node and link differences a step reports.

  The class `Shells.Shell` keeps the source's arrays as Dafny arrays. Its
  `Step` performs a timestep given the new bounding-box flags and the link
  distances.
- **The visualiser's routing side** (`animation_constellation.py`,
  `animation.py`, `animation_ui.py`, modules `Constellation`, `Animation`,
  `AnimationUi`). This covers:
  - the conversions between global node indices and `(shell, id)`;
  - the path returned for a route request;
  - path assembly, validation and sub-sampling for drawing;
  - the flags that decide when a route request may be sent (`RouteView`,
    `handleRightClick`).
- **The one-shot validator script** `add_srv6.py` (module `AddSrv6`).

The clock, command success, HTTP replies, pipe sends and picked nodes are
parameters of the operations that use them. Distances between nodes are
inputs: the whole metres the positions give.

The getters `get_sat_node_diffs` and `get_link_diff` (celestial/shell.py:370-385)
return the fields `nodesDiff` and `linkDiff` of `Shells.Shell`, which the model
exposes directly.

## Model

| member | source | states |
|---|---|---|
| AddressCodec.PackOctets | quick-start/validator/srv6_route_manager.py:224-236 | the four address bytes are 10, the shell, a byte, and a last byte in 2..254 that is 2 mod 4; the two packed bytes hold exactly the id modulo 2^14 |
| AddressCodec.PackedId | quick-start/validator/srv6_route_manager.py:230-231 | `(id >> 6) & 0xFF` and `(id << 2) & 0xFF` together keep exactly the low 14 bits of the id |
| AddressCodec.IpToNodeId | quick-start/validator/srv6_route_manager.py:163-176 | an address with fewer than four fields decodes to `NodeID(-1, -1)`; any other result takes its shell from the third field from the end |
| AddressCodec.DecodeFields | quick-start/validator/srv6_route_manager.py:163-176 | the decoder reads an encoder-built text back as its shell and the id `b3 * 64 + (b4 - 2) / 4`, the bitwise or of the shifted byte and the low six bits acting as addition |
| AddressCodec.DecodeEncode | quick-start/validator/srv6_route_manager.py:163-176 | decoding the address of `(shell, id)` gives `(shell, id mod 2^14)` for every shell and id |
| AddressCodec.RoundTrip | quick-start/validator/srv6_route_manager.py:224-236 | `_ip_to_node_id(_calculate_ip(s, i)) == (s, i)` for every id below 2^14 |
| AddressCodec.EncodeCollision | quick-start/validator/srv6_route_manager.py:230-231 | ids that differ by a multiple of 2^14 get the same address |
| AddressCodec.EncodeInjective | quick-start/validator/srv6_route_manager.py:224-236 | two nodes with a 16-bit shell and an id below 2^14 that share an address are the same node |
| AddressCodec.EncodedIsIPv6 | quick-start/validator/srv6_route_manager.py:197-202 | `ipaddress.IPv6Address` accepts an encoded address if and only if the shell fits a 16-bit group |
| AddressCodec.Ipv4MatchesIpv6 | celestial/animation_ui.py:959-979 | `calculateIPv6` and `calculateIPv4` carry the same four numbers for every shell and id |
| AddressCodec.Predecessor | quick-start/validator/srv6_route_manager.py:41-42 | `self_ipv6 - 1` keeps every group but the last and lowers the last one by one |
| PathProcessing.QueryNamesDestination | quick-start/validator/srv6_route_manager.py:151-161 | the path query for a node's own address names that node, for every id below 2^14 |
| PathProcessing.ProcessPath | quick-start/validator/srv6_route_manager.py:178-221 | the loop yields exactly the accepted-or-rejected result: None and no hops for a missing, empty or invalid reply, otherwise the destination and every intermediate target's address in order |
| PathProcessing.ProcessedShape | quick-start/validator/srv6_route_manager.py:178-207 | a rejected reply has no hops; an accepted one has one hop per segment but the last, and every hop and the destination is a valid fd00 IPv6 address |
| PathProcessing.AcceptedHopsInOrder | quick-start/validator/srv6_route_manager.py:187-204 | an accepted reply's destination is the last target's address and its hops are the other targets' addresses, in segment order |
| PathProcessing.HopsAreIPv6 | quick-start/validator/srv6_route_manager.py:193-202 | every target the range check lets through has a valid IPv6 address, so the second check on hops never fires |
| PathProcessing.FinalAcceptedIff | quick-start/validator/srv6_route_manager.py:209-221 | when the hops pass, the destination is accepted if and only if the last target's shell fits a 16-bit group |
| PathProcessing.IntendedHopsRoundTrip | quick-start/validator/srv6_route_manager.py:187-204 | with the id bound 2^14 - 1, every hop decodes back to the node the path service named |
| PathProcessing.IntendedRefinesWritten | quick-start/validator/srv6_route_manager.py:193 | the 2^14 - 1 bound only rejects more: a reply it accepts gets the same result under the written bound |
| PathProcessing.WrittenCheckAdmitsAliasedHop | quick-start/validator/srv6_route_manager.py:193 | as written, a hop with id 16384 passes the check and gets the address of node (1, 0) |
| RouteUpdaters.ConsistentMeansUnique | quick-start/validator/srv6_route_manager.py:326-362 | while the thread registry is the inverse of the live threads, a destination has exactly its registered updater, or none |
| RouteUpdaters.Schedule | quick-start/validator/srv6_route_manager.py:326-362 | after `_schedule_updater(d)` the registry names a live thread for `d` |
| RouteUpdaters.ScheduleConsistent | quick-start/validator/srv6_route_manager.py:326-362 | scheduling keeps the registry consistent, adds `d` to its keys, and leaves exactly one live updater for `d` |
| RouteUpdaters.ExitConsistent | quick-start/validator/srv6_route_manager.py:351-355 | a thread's exit keeps the registry consistent and removes exactly its destination |
| RouteUpdaters.ConsistentIsTruthful | quick-start/validator/srv6_route_manager.py:326-362 | a registry that inverts the live threads is also truthful |
| RouteUpdaters.ScheduleServiced | quick-start/validator/srv6_route_manager.py:326-362 | under either pruning, scheduling keeps the registry truthful, keeps every serviced destination serviced and services the new one |
| RouteUpdaters.ExitServiced | quick-start/validator/srv6_route_manager.py:337-355 | a thread whose destination is no longer cached exits without leaving any cached destination without its live updater |
| RouteUpdaters.PruneServiced | quick-start/validator/srv6_route_manager.py:455-460 | both prunings keep the registry truthful and every cached destination serviced |
| RouteUpdaters.PruneDeadConsistent | quick-start/validator/srv6_route_manager.py:455-460 | pruning only the entries whose thread has ended keeps the registry consistent and forgets no live thread |
| RouteUpdaters.PruneWrittenOrphans | quick-start/validator/srv6_route_manager.py:455-460 | as written, pruning the entry of a live thread whose route has expired breaks consistency, and the next schedule starts a second updater for the same destination |
| RouteUpdaters.TwoUpdatersForOneDestination | quick-start/validator/srv6_route_manager.py:326-362 | schedule, prune after expiry, schedule again: two live threads refresh one destination |
| RouteUpdaters.OneUpdaterForOneDestination | quick-start/validator/srv6_route_manager.py:326-362 | the same sequence with the pruning of dead threads leaves the first thread as the only one refreshing the destination |
| RouteManager.EmptyTableInv | quick-start/validator/srv6_route_manager.py:43-47 | under either variant the empty cache, kernel and thread registry satisfy the manager invariant |
| RouteManager.Without | quick-start/validator/srv6_route_manager.py:453 | deleting a cache key keeps every other key, once each |
| RouteManager.Install | quick-start/validator/srv6_route_manager.py:281-324 | installing never drops a cached destination |
| RouteManager.ExpiredIn | quick-start/validator/srv6_route_manager.py:446-449 | the expired list holds exactly the cached destinations idle for longer than the TTL, each once |
| RouteManager.MatchFrom | quick-start/validator/srv6_route_manager.py:514-520 | the result is the first route in cache order whose destination or next hop is the packet's destination, or the end when none matches |
| RouteManager.AppendOrder | quick-start/validator/srv6_route_manager.py:311 | a new destination joins the end of the cache order and the order stays in step with the cache |
| RouteManager.InstallNewInv | quick-start/validator/srv6_route_manager.py:281-324 | under either variant, installing a route to a destination not yet cached appends it to the order, schedules its updater and keeps the invariant |
| RouteManager.InstallCachedInv | quick-start/validator/srv6_route_manager.py:281-324 | under either variant, replacing the route of a cached destination keeps the invariant |
| RouteManager.InstallInv | quick-start/validator/srv6_route_manager.py:281-324 | `_install_route` keeps the invariant under either variant: order in step, next hop = first segment, every cached route in the kernel, a live registered updater per cached route (and, with the corrected pruning, a registry that inverts the live threads) |
| RouteManager.RemoveInv | quick-start/validator/srv6_route_manager.py:465-476 | removing a route from the cache, with its kernel delete succeeding or refused, keeps the invariant |
| RouteManager.TouchInv | quick-start/validator/srv6_route_manager.py:517 | marking a route used keeps the invariant under either variant |
| RouteManager.ManageInv | quick-start/validator/srv6_route_manager.py:238-279 | `_route_manager` under either id bound keeps the invariant on every outcome of the request and of the kernel commands |
| RouteManager.RefreshInv | quick-start/validator/srv6_route_manager.py:423-432 | one successful update request, whatever reply it processed, keeps the invariant |
| RouteManager.StampInv | quick-start/validator/srv6_route_manager.py:432 | setting the refresh time keeps the invariant |
| RouteManager.UpdateInv | quick-start/validator/srv6_route_manager.py:408-436 | `_update_route` with its retries, under either id bound, keeps the invariant |
| RouteManager.UpdaterStepInv | quick-start/validator/srv6_route_manager.py:337-355 | one round of an updater thread keeps the invariant under either variant when its cache check and its registry deletion are one step; an exiting thread then leaves every cached destination its live updater |
| RouteManager.RemoveAllInv | quick-start/validator/srv6_route_manager.py:451-453 | removing a list of routes keeps the invariant, drops exactly those from the cache and leaves the others unchanged; a listed kernel route stays exactly when its delete is refused |
| RouteManager.CleanupInv | quick-start/validator/srv6_route_manager.py:438-460 | under either pruning, after a sweep every route left was used within the TTL, every such route is still there unchanged, and an expired route stays in the kernel exactly when its delete was refused |
| RouteManager.EventInv | quick-start/validator/srv6_route_manager.py:487-526 | `handle_event` keeps the invariant under either variant |
| RouteManager.CachedRouteHasOneUpdater | quick-start/validator/srv6_route_manager.py:326-362 | with the corrected pruning and an exit taken as one step, every cached destination is refreshed by exactly one live updater thread |
| RouteManager.CachedRouteRefreshed | quick-start/validator/srv6_route_manager.py:326-362 | under either variant, with an exit taken as one step, every cached destination has its registered updater alive and refreshing it |
| RouteManager.ExitWindowLeavesDestUnserviced | quick-start/validator/srv6_route_manager.py:337-355 | as written the exit is two steps: a re-install between the cache check and the registry deletion starts no updater, and the deletion then leaves the cached destination with no registered updater, breaking the invariant |
| RouteManager.WithdrawOpensExitWindow | quick-start/validator/srv6_route_manager.py:255-261 | under either variant a withdrawn route leaves its updater registered and alive with the destination gone from the cache, the state in which the exit window opens |
| RouteManager.SweepExpiresOneRoute | quick-start/validator/srv6_route_manager.py:438-460 | a sweep twenty seconds after the only install expires that route and leaves an empty cache and kernel, differing between the variants only in the registry pruning |
| RouteManager.SweepOrphansUpdater | quick-start/validator/srv6_route_manager.py:438-460 | as written, expiry plus re-install leaves two live updaters for one destination; with the corrected pruning the old one stays alone |
| RouteManager.InstallInstalls | quick-start/validator/srv6_route_manager.py:281-319 | a successful install puts the segments into kernel and cache, next hop = first segment, with its registered updater alive (the only one, with the corrected pruning) |
| RouteManager.ManageOutcome | quick-start/validator/srv6_route_manager.py:251-274 | under either id bound, an accepted path with hops ends up as the route to its destination in cache and kernel; one without hops leaves no cache entry for it, and takes its kernel route away exactly when it was cached and the delete succeeds |
| RouteManager.RefreshKeepsRoute | quick-start/validator/srv6_route_manager.py:423-432 | a rejected or hop-less reply, a reply with the stored segments, or a failed command only stamps the refresh time: segments, last use, order, kernel and updaters stay |
| RouteManager.RefreshOtherStampsOnly | quick-start/validator/srv6_route_manager.py:423-432 | a reply naming another destination installs that route when its hops are new and the command succeeds, while the refreshed destination's own route is only stamped, its kernel route stays, and every other route is untouched |
| RouteManager.RefreshReinstalls | quick-start/validator/srv6_route_manager.py:423-432 | a reply naming the destination itself with other hops re-installs it on success: the hops become its segments in cache and kernel and its last use is reset |
| RouteManager.UpdateAbsent | quick-start/validator/srv6_route_manager.py:412-414 | `_update_route` for an uncached destination changes nothing |
| RouteManager.UpdateAllFailed | quick-start/validator/srv6_route_manager.py:408-436 | when every request fails the table is unchanged |
| RouteManager.EventTouchesFirstMatch | quick-start/validator/srv6_route_manager.py:511-520 | a matched packet marks only the first matching route as used and changes nothing else |
| RouteManager.Router.constructor | quick-start/validator/srv6_route_manager.py:37-43 | a new router, as written or corrected, has an empty table; its neighbour address is its own address minus one |
| RouteManager.Router.ScheduleUpdater | quick-start/validator/srv6_route_manager.py:326-362 | the registry becomes the schedule of the old one |
| RouteManager.Router.InstallRoute | quick-start/validator/srv6_route_manager.py:281-324 | the new state is the install of the old state, and the invariant of the router's variant holds |
| RouteManager.Router.RemoveRoute | quick-start/validator/srv6_route_manager.py:465-476 | only the kernel route of `dest` goes, and only when the delete succeeds |
| RouteManager.Router.Drop | quick-start/validator/srv6_route_manager.py:452-453 | the new state is the removal from the old state, with the delete succeeding or refused, and the invariant holds |
| RouteManager.Router.RouteManagerStep | quick-start/validator/srv6_route_manager.py:238-279 | the new state is `_route_manager` of the old state under the router's id bound (0xFFFF for `AsWritten`), and the invariant holds |
| RouteManager.Router.RefreshRoute | quick-start/validator/srv6_route_manager.py:421-433 | a reply for a cached destination, processed under the router's id bound, installs its new segments when they changed and stamps its refresh time, as the refresh function states, keeping the invariant |
| RouteManager.Router.UpdateRoute | quick-start/validator/srv6_route_manager.py:408-436 | the retry loop ends in the update function's state, under the router's id bound, over at most three attempts |
| RouteManager.Router.StepUpdater | quick-start/validator/srv6_route_manager.py:337-355 | one thread round, with the exit taken as one step, ends in the updater-step state of the router's variant, and the invariant holds |
| RouteManager.CollectExpired | quick-start/validator/srv6_route_manager.py:446-449 | the loop collects exactly the expired destinations in cache order |
| RouteManager.Router.DropAll | quick-start/validator/srv6_route_manager.py:451-453 | removing the listed routes one after another, the kernel refusing the deletes of `failed`, ends in the removal of all of them |
| RouteManager.Router.CleanupSweep | quick-start/validator/srv6_route_manager.py:443-460 | one sweep ends in the cleanup state of the router's pruning (the uncached-destination pruning for `AsWritten`), and the invariant holds |
| RouteManager.Router.FindMatch | quick-start/validator/srv6_route_manager.py:514-520 | the scan stops at the first matching route, or at the end |
| RouteManager.Router.HandleEvent | quick-start/validator/srv6_route_manager.py:487-526 | the new state is the event function of the old state under the router's variant, and the invariant holds |
| RouteManager.Router.Shutdown | quick-start/validator/srv6_route_manager.py:552-555 | stopping asks the kernel to delete every cached route: afterwards it holds exactly its old routes that were not cached or whose delete it refused, unchanged |
| RouteServer.ParseNodeInfo | celestial/srv6_route_server.py:62-90 | an invalid address, one outside fd00::/16, or one with fewer than four fields reads as node (0, 0) |
| RouteServer.ParseEncoded | celestial/srv6_route_server.py:62-90 | an encoder-built address with a 16-bit shell reads back as its shell and the id modulo 2^14 |
| RouteServer.ParseAgreesWithDecoder | celestial/srv6_route_server.py:73-85 | on a complete fd00::/16 address the server's reading equals the route manager's `_ip_to_node_id` |
| RouteServer.NoAddrReadsAsOrigin | celestial/srv6_route_server.py:36-37 | the default empty address reads as node (0, 0) |
| RouteServer.SegmentNodeInfos | celestial/srv6_route_server.py:53-60 | one node per segment address, in order, each read by `_parse_ipv6_to_node_info` |
| RouteServer.DefaultsReadAsOrigin | celestial/srv6_route_server.py:35-51 | a post without its optional members reads as a route from (0, 0) to (0, 0) with no segments, stamped now |
| RouteServer.RelayedRouteNamesItsNodes | celestial/srv6_route_server.py:147-171 | the message forwarded for a route manager's post names exactly its source, destination and hops, in order |
| RouteServer.StoreCount | celestial/srv6_route_server.py:140-141 | storing a route replaces the entry of its pair, so the count grows only for a new pair |
| RouteServer.RouteHandler.constructor | celestial/srv6_route_server.py:96 | the route store starts empty |
| RouteServer.RouteHandler.DoGet | celestial/srv6_route_server.py:108-124 | `/api/status` answers 200 with the number of stored pairs; any other path answers 404 |
| RouteServer.RouteHandler.DoPost | celestial/srv6_route_server.py:126-217 | 404 off `/api/route`; 400 for bad JSON; 500 when `source` or `destination` is missing or the body is not an object; otherwise 200, the route stored under its pair, and the message forwarded when connected |
| Constellation.GetNodeInfo | celestial/animation_constellation.py:158-200 | an index past the satellites is ground station `idx - total` in shell 0; a negative index stays `(1, idx)`; any other index lies in one 1-based shell at an offset below its size, with prefix + offset = index |
| Constellation.NodeInfoUnique | celestial/animation_constellation.py:176-195 | a satellite index has exactly one decomposition into shell and offset |
| Constellation.NodeInfoOfNode | celestial/animation_constellation.py:176-200 | every satellite and every ground station is the answer for some index |
| Constellation.SegmentIndex | celestial/animation_constellation.py:297-309 | a segment target's global index adds up the sizes of the shells before its 1-based shell; None where the shell lookup raises |
| Constellation.TargetIndexInvertsNodeInfo | celestial/animation_constellation.py:297-309 | the target-index formula inverts `_get_node_info` for every index |
| Constellation.GetRoutePath | celestial/animation_constellation.py:217-338 | no request when source equals target; otherwise the request names both nodes as `_get_node_info` reads them, and the path is built from the reply's segments |
| Constellation.NoneSticks | celestial/animation_constellation.py:294-309 | once one segment raises, the whole conversion falls back to the direct path |
| Constellation.RoutePathEnds | celestial/animation_constellation.py:228-318 | a path between distinct nodes has at least two nodes, starts at the source and ends at the target; a path from a node to itself is that node |
| Constellation.RoutePathDefaults | celestial/animation_constellation.py:252-286 | a failed request, a blocked path, or missing or `null` segments give the direct path |
| Constellation.IncompleteSegmentSkipped | celestial/animation_constellation.py:295 | a segment lacking `source` or `target` adds no node |
| Constellation.SegmentNodesOfNodeInfos | celestial/animation_constellation.py:294-309 | segments naming the `_get_node_info` answers of a list of indices convert back to exactly that list |
| Constellation.FallbackResponse | celestial/animation_constellation.py:202-215 | the fallback response is the direct path from source to target |
| Constellation.HandleControlMessage | celestial/animation_constellation.py:340-445 | handled if and only if the message is a well-formed route request and one send succeeds; the path sent starts at the source and ends at the target, and is the fallback when the first send fails |
| Animation.SatelliteIndex | celestial/animation.py:390-402 | the index of satellite `id` of a 0-based shell is the number of satellites in the shells before it plus the id; a shell past the last one makes the lookup fail |
| Animation.Decompose | celestial/animation.py:925-936 | an index among the satellites is split into the shell that holds it and the offset inside that shell; any other index is left as id `idx` of shell 0 |
| Animation.SatelliteIsNodeInfo | celestial/animation.py:925-936 | the animation's 0-based split of a satellite index is the simulation's node naming with the shell counted from 1 |
| Animation.SatelliteIndexDecomposes | celestial/animation.py:390-402 | computing a satellite's index and splitting it again are inverse: the index lies among the satellites and names that satellite and no other |
| Animation.NodeGlobalIndex | celestial/animation.py:1166-1201 | shell 0 with an id below the number of ground stations is that ground station after all satellites; a shell out of range gives 0; an id outside its shell gives the shell's first index; otherwise the satellite's index |
| Animation.IntendedInvertsNodeInfo | celestial/animation.py:1166-1201 | reading the shell as the simulation's 1-based shell identifier, every node the simulation names for an index leads back to that same index |
| Animation.WrittenIndexShiftsShell | celestial/animation.py:1180-1187 | read as a 0-based shell, a satellite of the first shell is drawn as one of the second shell and a satellite of the second shell is drawn at index 0 |
| Animation.AssembleSrv6Path | celestial/animation.py:857-897 | for either shell numbering, the path of an `srv6_route` message is its source, then every segment, then the target unless the last node already is the target |
| Animation.Srv6PathShape | celestial/animation.py:883-897 | for either shell numbering the assembled path starts at the source, lists every segment in order, always ends at the target, and has one or two more nodes than the segments |
| Animation.CheckPath | celestial/animation.py:903-956 | a path is valid exactly when every node is a non-negative index of a satellite or a ground station |
| Animation.Srv6PathOfIndices | celestial/animation.py:857-975 | read with 1-based shells, a message whose nodes the simulation named for real indices assembles to exactly those indices, and the path is drawable |
| Animation.WrittenSrv6PathShifts | celestial/animation.py:875-897 | as written, a route between satellites 3 and 5 of the first shell is drawn between indices 13 and 15; read from 1 it is drawn between 3 and 5 |
| Animation.PickIndicesInRange | celestial/animation.py:528-530 | every middle node picked by the sub-sampling lies inside the path |
| Animation.Picks | celestial/animation.py:528-530 | the middle nodes are at most eighteen, the k-th being the node at position `(k+1)*step` of the path |
| Animation.SubSampleShape | celestial/animation.py:515-533 | a drawn path has between two and twenty nodes, all from the path, starts at the path's first node and contains its last one, which ends it when no node repeats |
| Animation.PickedIndexNames | celestial/animation.py:404-461 | the index computed for a valid pick is a node of the network, and the simulation names that node back as the picked satellite (shell plus one) or ground station |
| Animation.InitialViewInv | celestial/animation.py:77-135 | the initial route fields satisfy the invariant: nothing pending, no selection |
| Animation.UpdateRouteInv | celestial/animation.py:277-388 | `updateRoutePath` keeps the invariant: a pending request has both indices and there is none during a reset |
| Animation.ShowRouteInv | celestial/animation.py:404-508 | `showRoutePath` with two valid picks keeps the invariant |
| Animation.RouteReplyInv | celestial/animation.py:1016-1057 | handling a `route` reply keeps the invariant |
| Animation.ClearInv | celestial/animation.py:1103-1164 | `clearRoutePath` establishes the invariant from any state |
| Animation.UpdateRouteSends | celestial/animation.py:277-358 | nothing is sent during a reset or while a request is pending; a request is sent exactly when both ends are selected, the route is due and the pipe accepts it; it names the stored indices and leaves a request pending |
| Animation.ResetEnds | celestial/animation.py:280-305 | during a reset nothing is sent and the path is emptied; the reset ends on the first update after three seconds and not before |
| Animation.ClearBlocksRequests | celestial/animation.py:1103-1164 | for three seconds after a clear no request is sent and the reset holds |
| Animation.RouteReplyOutcome | celestial/animation.py:1016-1050 | a reply during a reset is dropped with an empty path; otherwise its path becomes current, the pending flag is cleared, and no new request goes out before a later animation step |
| Animation.RouteView.SetState | celestial/animation.py:77-135 | assigns every route field of the animation object |
| Animation.RouteView.constructor | celestial/animation.py:77-135 | the route fields start as the constructor sets them and satisfy the invariant |
| Animation.RouteView.DisplayRoutePath | celestial/animation.py:510-533 | a path of fewer than two nodes is ignored; otherwise it becomes the current path and its sub-sample is drawn |
| Animation.RouteView.ClearRoutePath | celestial/animation.py:1103-1164 | selection, indices and pending request are dropped, a reset starts now, no request is due and there is no current path |
| Animation.RouteView.UpdateRoutePath | celestial/animation.py:277-388 | the object's fields and the request sent follow the update rule, and the invariant is kept |
| Animation.RouteView.ShowRoutePath | celestial/animation.py:404-508 | the reset ends, both indices are stored, the request is sent and the direct path drawn; a failed send leaves nothing pending |
| Animation.RouteView.IndexOfPick | celestial/animation.py:431-451 | the index loops of `showRoutePath` give the picked node's global index |
| Animation.RouteView.OnRouteReply | celestial/animation.py:1016-1057 | the fields follow the reply rule and the invariant is kept |
| Animation.HandleSrv6Route | celestial/animation.py:857-982 | the handler (with shells read from 0, as written) draws the assembled path exactly when it has at least two nodes and all of them are drawable |
| AnimationUi.AddressesAgree | celestial/animation_ui.py:959-979 | the IPv6 and IPv4 texts shown for a pick carry the same four bytes, the last being 2 more than a multiple of 4 |
| AnimationUi.AddressNamesNode | celestial/animation_ui.py:726-727 | the route server reads the address shown for a picked node (shell identifier = shell + 1, ground stations shell 0) as the node the simulation names for the pick's global index |
| AnimationUi.ReportedNodeDrawnAtPick | celestial/animation_ui.py:824-825 | read with shell identifiers, a node reported back by its address is drawn at the index of the pick that showed the address |
| AnimationUi.WrittenLosesLastShell | celestial/animation_ui.py:726-727 | as written, a reported satellite of the last shell is drawn at index 0 |
| AnimationUi.RightClickInv | celestial/animation_ui.py:530-696 | a right click keeps the route invariant |
| AnimationUi.RightClickIgnored | celestial/animation_ui.py:536-554 | a click while a request is pending, or during a reset that has not lasted three seconds, changes nothing and sends nothing |
| AnimationUi.RightClickSelects | celestial/animation_ui.py:541-696 | otherwise the reset ends; the first pick selects only the source; a later pick selects the target, stores both indices and sends the request, pending exactly when it went out |
| AnimationUi.HandleRightClick | celestial/animation_ui.py:530-696 | the object's fields and the request sent follow the right-click rule and the invariant is kept |
| AddSrv6.CalculateIps | quick-start/validator/add_srv6.py:4-17 | the IPv4 text has four octets and the IPv6 text six groups, its last four groups being the hexadecimal form of the same four bytes |
| AddSrv6.CollectPath | quick-start/validator/add_srv6.py:37-50 | the loop succeeds exactly when every segment has both keys and every node read has shell and id; it then lists the first source and every target, with each node's address |
| AddSrv6.ExecuteCommand | quick-start/validator/add_srv6.py:19-74 | a route command is produced exactly when the segments are a non-empty list of readable segments; its destination is the last node's address and its segment list the addresses strictly between the first and the last |
| AddSrv6.PathLabelsShape | quick-start/validator/add_srv6.py:37-50 | n segments give n + 1 nodes: the first source, then every target in order |
| AddSrv6.PathAddrsAt | quick-start/validator/add_srv6.py:48-50 | the address listed after the first is, for each segment, the address of its target |
| AddSrv6.AgreesWithRouteManager | quick-start/validator/add_srv6.py:56-59 | whenever the route manager accepts a path, the script installs the same route: the same destination and the same inner segments |
| ShellLinks.Grid | celestial/shell.py:634-662 | the +GRID topology has two links per satellite |
| ShellLinks.InitPlusGridLinks | celestial/shell.py:622-664 | the link array is filled, in order, with the intra-plane links and then the cross-plane links, and their number is returned |
| ShellLinks.AddIntraPlaneLinks | celestial/shell.py:634-645 | the first outer loop writes the intra-plane links of every plane, in order, to the front of the array and leaves the rest as it was |
| ShellLinks.AddCrossPlaneLinks | celestial/shell.py:647-660 | the second outer loop writes the cross-plane links behind the intra-plane ones and leaves those as they were |
| ShellLinks.AddIntraLinks | celestial/shell.py:635-645 | the inner intra-plane loop writes the links of one plane at consecutive positions and touches nothing else |
| ShellLinks.AddCrossLinks | celestial/shell.py:648-660 | the inner cross-plane loop writes the links of one plane to the next at consecutive positions and touches nothing else |
| ShellLinks.IntraLinkOf | celestial/shell.py:635-645 | the intra-plane link written for a node joins it to the next node of its plane, the last wrapping to the first |
| ShellLinks.CrossLinkOf | celestial/shell.py:648-660 | the cross-plane link written for a node joins it to the node with the same offset in the next plane, the last plane wrapping to the first |
| ShellLinks.GridLinkInRange | celestial/shell.py:622-664 | both endpoints of every grid link are satellites of the shell |
| ShellLinks.IntraLinkJoinsNeighbours | celestial/shell.py:636-642 | intra-plane link k joins node k to the next offset, modulo the plane size, of the same plane |
| ShellLinks.CrossLinkJoinsPlanes | celestial/shell.py:648-656 | cross-plane link j joins node j to the node with the same offset in the next plane, modulo the number of planes |
| ShellLinks.UpdateIslLinks | celestial/shell.py:700-717 | every grid link takes its distance and is active exactly when that distance is within the inter-satellite range; the rest of the array is unchanged |
| ShellLinks.Scan | celestial/shell.py:721-760 | a station's scan records at most one uplink per satellite seen, and at least one once it has found a satellite in range |
| ShellLinks.ScanLinksInRange | celestial/shell.py:734-760 | every uplink recorded belongs to the station, leads to a satellite seen, carries its distance, is within the station's range, and the uplinks are in satellite order |
| ShellLinks.ScanAllKeepsEveryone | celestial/shell.py:734-760 | a station that is not single-link records an uplink to every satellite in range |
| ShellLinks.ScanOneKeepsNearest | celestial/shell.py:738-750 | a single-link station holds no uplink exactly when no satellite is in range, and otherwise one uplink, to the nearest satellite in range (the last of equally near ones), with the shortest distance noted |
| ShellLinks.AllScans | celestial/shell.py:719-764 | the uplinks of all stations number at most one per station and satellite |
| ShellLinks.AllScansInRange | celestial/shell.py:719-764 | every uplink written belongs to one of the stations, leads to a satellite of the shell, and is within that station's range |
| ShellLinks.UpdateGstLinks | celestial/shell.py:719-764 | the uplink array starts with the scans of all stations, one after the other, and their number is returned |
| ShellLinks.ScanStation | celestial/shell.py:721-760 | the scan of one station writes exactly that station's uplinks behind the ones already written, keeping only the current nearest for a single-link station, and returns the new end |
| ShellPaths.LinkDistSymmetric | celestial/shell.py:807-814 | the initial distance between two satellites does not depend on the direction |
| ShellPaths.LinkDistIsLink | celestial/shell.py:807-814 | a finite initial distance is the distance of an active link between the two satellites, in either direction |
| ShellPaths.InitDistances | celestial/shell.py:799-818 | every distance starts infinite with next hop -1; each active link sets the distance both ways and makes each end the other's next hop, the last such link winning; every node is at distance 0 from itself and its own next hop |
| ShellPaths.InitialInv | celestial/shell.py:799-818 | the initial matrices are symmetric, have a zero diagonal, a next hop of -1 exactly where the distance is infinite, and every other next hop is a node |
| ShellPaths.FloydWarshall | celestial/shell.py:823-835 | the relaxation loop keeps that shape and never lengthens a distance |
| ShellPaths.Relax | celestial/shell.py:827-835 | when the way through `k` is strictly shorter it becomes the distance of the pair both ways and the next hops become those towards `k`; otherwise the pair is unchanged; every other entry is unchanged; the shape holds and no distance grows |
| ShellPaths.SatPathHops | celestial/shell.py:837-858 | a satellite pair's path is active exactly when its distance is finite; then both hops are satellites, otherwise both are -1 |
| ShellPaths.FillSatPaths | celestial/shell.py:837-858 | every satellite pair above the diagonal gets its path from the distance and next-hop matrices; every other entry is unchanged |
| ShellPaths.StationLinks | celestial/shell.py:861-870 | a station's list holds, in increasing order, exactly the positions of its uplinks |
| ShellPaths.CollectStationLinks | celestial/shell.py:861-870 | the loop lists for every station, in station order, the positions of its uplinks among those written |
| ShellPaths.CollectUplinks | celestial/shell.py:862-868 | the scan over the uplinks keeps, in order, exactly the positions whose station is the given one |
| ShellPaths.DirectUplinkWins | celestial/shell.py:879-886 | the scan stops at the first uplink that goes straight to the satellite and takes it |
| ShellPaths.UplinkShortest | celestial/shell.py:879-902 | without a direct uplink the scan finds none exactly when no uplink satellite is reachable, and otherwise the one with the shortest total distance |
| ShellPaths.DirectUplinkEntry | celestial/shell.py:904-933 | with a direct uplink the entry is active, its next hop the satellite, its previous hop the station, its delay that of the uplink and its bandwidth the smaller of the station's and the inter-satellite bandwidth |
| ShellPaths.RelayedUplinkEntry | celestial/shell.py:872-933 | otherwise the entry is inactive, and keeps its old hops, delay and bandwidth, exactly when no uplink satellite is reachable; when active it goes through the uplink with the shortest total distance |
| ShellPaths.UplinkFromListed | celestial/shell.py:879-902 | the uplink chosen is one of the station's |
| ShellPaths.GstSatPathHops | celestial/shell.py:904-926 | an active station-to-satellite entry starts at one of the station's uplink satellites; an inactive one keeps its hops |
| ShellPaths.GstGstPathHops | celestial/shell.py:962-976 | an active station-to-station entry starts at an uplink satellite of the first station and ends at one of the second; an inactive one keeps its hops |
| ShellPaths.FillStationRow | celestial/shell.py:874-933 | the entries from one station to every satellite are computed and nothing else changes |
| ShellPaths.StationEntry | celestial/shell.py:875-933 | the uplink scan and the writes for one station and satellite yield the station-to-satellite entry of what the entry held, and hops within the matrix stay within it |
| ShellPaths.FillGstSatPaths | celestial/shell.py:872-933 | the entries from every station to every satellite are computed and nothing else changes |
| ShellPaths.ScanUplinks | celestial/shell.py:875-902 | the uplink loop computes the chosen uplink, which is -1 or one of the station's |
| ShellPaths.PairKeepsState | celestial/shell.py:942-960 | the pair scan's choice is always a pair of the two stations' uplinks with a finite distance and the noted total |
| ShellPaths.PairNoneIff | celestial/shell.py:942-971 | the pair scan finds nothing exactly when no uplink satellite of one station reaches one of the other |
| ShellPaths.PairShortest | celestial/shell.py:942-960 | the chosen pair has the shortest total distance of all pairs |
| ShellPaths.GstGstEntry | celestial/shell.py:936-993 | a station pair's entry is inactive, keeping its other fields, exactly when no pair of uplinks connects; otherwise its hops are the uplink satellites of the shortest pair, its delay that pair's distance and its bandwidth the smallest of the three bandwidths |
| ShellPaths.ScanPairs | celestial/shell.py:939-960 | the nested uplink loop computes the pair scan |
| ShellPaths.FillPairRow | celestial/shell.py:937-993 | the entries from one station to every later station are computed and nothing else changes |
| ShellPaths.PairEntry | celestial/shell.py:939-993 | the pair scan and the writes for two stations yield the station-pair entry of what the entry held, and hops within the matrix stay within it |
| ShellPaths.FillGstGstPaths | celestial/shell.py:936-993 | the entries between every pair of stations are computed and nothing else changes |
| ShellPaths.UpdatePaths | celestial/shell.py:785-993 | after the update the distance matrix is symmetric with a zero diagonal and never longer than a direct link; every satellite pair above the diagonal holds the path computed from it, every station-to-satellite entry the one computed from what it held and the station's uplinks, and every station pair above the diagonal the one computed from what it held and both stations' uplinks; entries below the diagonal, other than from a station to a satellite, are unchanged |
| ShellDiff.Int32Wraps | celestial/shell.py:1019-1020 | the conversion yields a signed 32-bit value congruent to its input modulo 2^32, and leaves a value already in range unchanged |
| ShellDiff.DelayGapExact | celestial/shell.py:1019-1021 | for delays below 2^31 microseconds the delay gap is the plain distance between them |
| ShellDiff.DelayGapOfLargeDelays | celestial/shell.py:1019-1021 | a delay of 2^31 or more reads as negative: 2^31 against 0 gives a gap of 2^31, and 2^32 - 1 against 0 a gap of 1 |
| ShellDiff.SameNeverDiffers | celestial/shell.py:1018-1025 | with a threshold that is not negative a path never counts as changed against itself |
| ShellDiff.VisitedOnce | celestial/shell.py:1013-1040 | of two distinct nodes the diff looks at exactly one of the two ordered pairs |
| ShellDiff.RowFromExact | celestial/shell.py:1013-1058 | one row of the diff lists, in increasing order of the second node, exactly the visited pairs of that row whose path changed, each with its new path |
| ShellDiff.RowFromSound | celestial/shell.py:1013-1058 | every entry of a row's part from a column on is a visited pair of that row at or right of the column whose path changed, with its new path, in increasing column order |
| ShellDiff.RowFromComplete | celestial/shell.py:1013-1058 | every visited pair of a row at or right of a column whose path changed is in the row's part from that column on |
| ShellDiff.RowsFromExact | celestial/shell.py:1013-1058 | the rows from a node on list, in row-major order, exactly the visited changed pairs from that node on, each with its new path |
| ShellDiff.LinkDiffExact | celestial/shell.py:998-1058 | the diff holds a pair with its new path exactly when the pair is visited and its path changed; it is sorted in row-major order and every entry names nodes of the matrix and carries their new path |
| ShellDiff.LinkDiffFits | celestial/shell.py:324-326 | the diff fits the buffer of one entry per node pair |
| ShellDiff.SatRowHead | celestial/shell.py:1014 | a satellite row considers only nodes above the diagonal |
| ShellDiff.SatRowTail | celestial/shell.py:1013-1014 | a satellite row never lists a ground station |
| ShellDiff.SatRowDiff | celestial/shell.py:1014-1029 | the inner satellite loop appends exactly one row of the diff after the entries already written, which then leave only the later rows to write |
| ShellDiff.GstRowDiff | celestial/shell.py:1033-1056 | the inner ground-station loop, skipping the diagonal and the lower stations, appends exactly one row of the diff after the entries already written |
| ShellDiff.PairDiff | celestial/shell.py:1042-1056 | comparing one visited pair appends it with its new path exactly when its path changed, so the written entries extend by the pair's part of the row |
| ShellDiff.Append | celestial/shell.py:1053-1056 | writing an entry at the count and advancing the count extends the written entries by that entry, within the buffer |
| ShellDiff.SatRowsDiff | celestial/shell.py:1013-1029 | the satellite loop writes, from position 0, the part of the diff before the ground-station rows |
| ShellDiff.NewLinkDiff | celestial/shell.py:324-336 | a fresh buffer of one entry per node pair is filled and the returned total marks exactly the diff at its start |
| ShellDiff.GetLinkDiff | celestial/shell.py:998-1058 | the buffer starts with the whole diff and its length is returned |
| ShellDiff.MachineIds | celestial/shell.py:198-212 | there is one machine identifier per satellite and per ground station |
| ShellDiff.MachineIdsDistinct | celestial/shell.py:204-212 | with a non-zero shell identifier all machine identifiers differ |
| ShellDiff.MissingHopNamesLastNode | celestial/shell.py:352-368 | a missing hop (-1) is read, by list indexing, as the last ground station |
| ShellDiff.DiffMapStep | celestial/shell.py:337-348 | one entry of the diff adds its link, keyed by both machine identifiers, to the map built so far |
| ShellDiff.DiffMapHas | celestial/shell.py:337-348 | when identifiers and diff keys are distinct, every entry of the diff is in the map with its link information |
| ShellDiff.DiffMapOnly | celestial/shell.py:337-348 | every link in the map comes from an entry of the diff |
| ShellDiff.SortedKeysDistinct | celestial/shell.py:1013-1058 | a diff in row-major order names every node pair at most once |
| ShellDiff.LatestStep | celestial/shell.py:350 | writing one entry sets the path of its pair and leaves the other pairs as they were |
| ShellDiff.LatestOfEntries | celestial/shell.py:337-350 | after the writes, a pair holds the new path when the diff lists it, and its old path otherwise |
| ShellDiff.LinkDiffCatchesUp | celestial/shell.py:320-350 | against the reported paths, the diff reports exactly the visited changed pairs in row-major order, and writing it makes each reported path the new one for those pairs and leaves every other pair as it was |
| ShellDiff.LatestOfLinkDiff | celestial/shell.py:320-350 | after the step, a reported path is the new path exactly for the visited pairs whose path changed, and the old one for every other pair |
| ShellDiff.NodeDiff | celestial/shell.py:306-318 | a satellite is in the node diff exactly when its bounding-box flag changed, as Active when it entered the box and Stopped when it left, keyed by the shell identifier and its id |
| ShellDiff.NodeDiffStep | celestial/shell.py:308-318 | one satellite adds its state to the node diff exactly when its flag changed |
| Shells.Shell.constructor | celestial/shell.py:120-232 | a new shell holds the ground stations with ids -1, -2, ..., the grid links (all inactive at distance 0), no uplinks, empty diffs, every satellite outside the bounding box, and all-zero path matrices |
| Shells.Shell.UpdateGridLinks | celestial/shell.py:666-684 | every grid link takes its distance and activity, the uplink array holds the scans of all stations, and the shell stays consistent |
| Shells.Shell.CalculateNodeDiff | celestial/shell.py:306-318 | the node diff becomes the satellites whose bounding-box flag changed, with their new state |
| Shells.Shell.RecomputePaths | celestial/shell.py:766-783 | the path matrix is recomputed from the current links and the uplinks written, as the path update states, including the station-to-satellite and station-pair entries |
| Shells.Shell.ApplyLinkDiff | celestial/shell.py:320-350 | the diff reported is exactly the visited pairs whose path changed against the reported paths, in row-major order; the link diff becomes their map with the new link information, and the reported paths take the new path exactly for those pairs |
| Shells.Shell.WriteLinkDiff | celestial/shell.py:337-350 | the loop over the diff builds the link map and writes each new path into the reported paths |
| Shells.Shell.CalculateDiffs | celestial/shell.py:306-350 | the node diff holds the satellites whose flag changed, the satellite paths are recomputed, the diff reported is exactly the visited pairs whose path changed, the link diff is their map, and the reported paths catch up with them |
| Shells.Shell.Step | celestial/shell.py:234-350 | a step stores the new bounding-box flags and updates the links and uplinks; without diffs nothing else changes; with diffs the node diff holds the changed satellites, the paths are recomputed, the link diff holds exactly the visited pairs whose path changed, and the reported paths catch up with them |
| Shells.ReportedFit | celestial/shell.py:337-348 | every diff entry names nodes of the shell and hops that identifier lookup accepts |

## Left out

- Orbit propagation (SGP4), the Earth-rotation matrices, the bounding-box latitude/longitude test, the `sqrt` link distances and the maximum-range formulas (celestial/shell.py:251-299, 430-481, 572-605). They are floating-point geometry. The bounding-box flags, the link and uplink distances, the inter-satellite range and each station's range are inputs.
- Fixed-width integers of the arrays (`int16` node numbers, `uint16` link positions, `uint32` distances and delays) are unbounded here. The one place where the width changes a result, the `int32` reading of the `uint32` delays in the link diff, is modelled explicitly (`ShellDiff.Int32`, `ShellDiff.Int32Wraps`); the subtraction and absolute value after it are numba's 64-bit integer arithmetic, which cannot overflow there (`ShellDiff.DelayGap`).
- `ShellPaths.DelayUs`: the source converts a distance to a delay as a floating-point product at 3.336e-9 s/m, cast to `uint32`. The model multiplies exactly and truncates, so float rounding at the cut is not modelled. The cast of an infinite distance, whose value numpy leaves undefined, is taken as 0.
- Floyd–Warshall works on `float32` distances in the source. Here they are exact integers plus an infinite value, so float rounding of long sums is not modelled.
- `ShellPaths.FloydWarshall`: the contract states the shape the loop keeps (symmetry, zero diagonal, next hop -1 exactly for infinite distances) and that no distance grows; each step is stated exactly by `ShellPaths.Relax`. It does not state that the result is the shortest path, which the source does not promise either.
- `ShellPaths.UpdatePaths`: its satellite-pair entries are stated in terms of the distance and next-hop matrices Floyd–Warshall leaves, which its contract constrains only by that shape and by never exceeding a direct link, not by the value of each relaxation.
- `Shells.Shell.RecomputePaths`: inherits the same limit from `ShellPaths.UpdatePaths`.
- `ShellLinks.ScanOneKeepsNearest`: it requires a station range below 2^32-1, the source's "no uplink yet" mark. A range of exactly 2^32-1, the largest the `uint32` field holds, could tie with the mark.
- `Shells.Shell.Step`: the station-to-satellite and the station-pair entries of the recomputed path matrix are stated by `Shells.Shell.RecomputePaths` and `ShellPaths.UpdatePaths`, not repeated in `Step`'s own contract, which states the satellite pairs.
- `Shells.Shell.CalculateDiffs`: likewise states the satellite pairs of the recomputed path matrix and leaves the station entries to `Shells.Shell.RecomputePaths`.
- `g_valid_links` (celestial/shell.py:861-870) is a pre-sized `uint16` array in the source. Here each station's list is a sequence (`ShellPaths.StationLinks`).
- `current_timestep`, `satellites_array` positions, ground station positions and their getters carry no routing logic. They are not part of this model.
- eBPF programs, the perf-buffer poller and the raw-socket hook (quick-start/validator/srv6_route_manager.py:50-53, 82-132, 478-485) are not modelled. A captured packet is the `(src, dst)` pair given to `handle_event`.
- `ip -6 route` commands are calls into the kernel. They become the `kernel` map of the route table, and their success is a parameter: `cmdOk` for `replace`, and `delOk` or the set `failed` of refused destinations for `del`. `_remove_route` ignores a refused delete, so its route stays in the kernel after the cache forgets it; the invariant therefore says only that the kernel holds every cached route.
- `RouteManager.CachedRouteHasOneUpdater`: proved for the corrected pruning only; as written a destination can get two live updaters (`RouteManager.SweepOrphansUpdater`). What holds for both variants is `RouteManager.CachedRouteRefreshed`, a live registered updater per cached destination. Both rest on the one-step exit below, so the source promises neither.
- `RouteManager.CachedRouteRefreshed`: holds only because `RouteManager.UpdaterStep` takes an updater thread's cache check (quick-start/validator/srv6_route_manager.py:340-342) and its later registry deletion (351-354) as one step. As written, a re-install between the two leaves the destination cached with no updater (`RouteManager.ExitWindowLeavesDestUnserviced`).
- `RouteManager.UpdaterStep`: the as-written exit window is not a variant of the table operations. Both `AsWritten` and `Corrected` use the one-step exit, and so do `RouteManager.UpdaterStepInv` and `RouteManager.Router.StepUpdater`.
- `Animation.Srv6PathOfIndices`: stated for shells read from 1. The handler as written reads them from 0 and draws shifted indices (`Animation.WrittenSrv6PathShifts`).
- HTTP: the `/self` lookup, the path-service request and the visual-sink POSTs are parameters (their reply or their failure). The server's `HTTPServer` start and stop and the connection singleton are not modelled.
- Threads, locks, `time.sleep` and the daemon loops are not modelled. Each loop body is one sequential step, and the wall-clock time `now` is a parameter. Interleavings between threads are therefore not modelled, except the registry sequences stated as traces (`RouteUpdaters.TwoUpdatersForOneDestination`, `RouteManager.SweepOrphansUpdater`, `RouteManager.ExitWindowLeavesDestUnserviced`).
- `Animation.RouteReply`: when the reply's path does not convert to integers, the source keeps the raw list as the current path and leaves `route_request_pending` set (celestial/animation.py:1047-1052). The model's path is either a list of integers or absent, so this fallback is not modelled.
- VTK rendering, actors, arrows, the progress bar and the info panels are not modelled. `pathShown` stands for the route actor being on screen. Screen picking is abstracted into the picked node.
- IPv6 text compression by `ipaddress` is not modelled. Addresses are the colon-separated field lists of their text, and for encoder-built addresses the compressed text is the encoder's text.
- The printed path text of `add_srv6.py` (`shell-S-id-I` labels joined by `" -> "`, quick-start/validator/add_srv6.py:44, 49, 53) is console output only. The model keeps the labels as `(shell, id)` pairs (`AddSrv6.CollectPath`) and not their text.
- The logging and `print` calls throughout are not modelled.

## Findings

| source | as written | input that shows it | evidently intended | confidence | as-written member | corrected member |
|---|---|---|---|---|---|---|
| quick-start/validator/srv6_route_manager.py:193 | intermediate targets are accepted with ids up to 0xFFFF, but the address keeps only the low 14 bits of the id | a path whose first hop is node (1, 16384), then (1, 5): the segment list steers the packet through node (1, 0) | only ids below 2^14, which the address can carry, are accepted | high (not executed) | PathProcessing.WrittenCheckAdmitsAliasedHop | PathProcessing.IntendedHopsRoundTrip |
| quick-start/validator/srv6_route_manager.py:455-460 | the cleanup drops the registry entry of every destination no longer cached, even while its updater thread is alive | an updater starts for d, the route expires and the sweep prunes d, and d is installed again before the old thread wakes: two live threads refresh d | only entries whose thread has ended are dropped, keeping one updater per destination | medium (not executed) | RouteUpdaters.PruneWrittenOrphans | RouteUpdaters.PruneDeadConsistent |
| quick-start/validator/srv6_route_manager.py:337-355 | an updater thread checks under the cache lock that its destination has left the cache, and deletes the destination's registry entry only later under the registry lock | a route to d is withdrawn, d's updater sees it gone, d is installed again and the schedule finds the old thread alive and starts none, then the old thread deletes d's entry: d stays cached with no updater | the check and the deletion happen as one step, so a re-install after it starts a new updater | medium (not executed) | RouteManager.ExitWindowLeavesDestUnserviced | RouteManager.UpdaterStepInv |
| celestial/animation.py:1180-1187 | `_calculate_node_global_index` reads the shell as 0-based, but the shells it receives are the simulation's 1-based shell identifiers | with two shells of ten satellites, satellite 3 of the first shell arrives as (1, 3) and is drawn at index 13, and satellite 3 of the second arrives as (2, 3) and is drawn at index 0 | the shell is read as 1-based, so every reported node is drawn at its own index | high (not executed) | Animation.WrittenIndexShiftsShell | Animation.IntendedInvertsNodeInfo |
