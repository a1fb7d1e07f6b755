/** The SRv6 route manager of a node (`SRv6DynamicRouter`): a cache of
    active routes keyed by destination address, the kernel routes it installs
    with `ip -6 route replace … encap seg6 …`, a periodic updater per
    destination, a cleanup sweep that expires idle routes, and the traffic
    hook that triggers all of it.

    The operations are first given as functions on a `Table` (the cache, its
    insertion order, the kernel routes, the updater registry) and proved to
    keep `Inv`; the class `Router` then performs them in place and is proved to
    agree with those functions. Both are parametrised by a `Variant`: the
    manager as written (`AsWritten`) or with the id bound of `_process_path`
    and the registry pruning of `_cleanup_loop` corrected (`Corrected`). */
module RouteManager {
  import opened Common
  import opened AddressCodec
  import opened PathJson
  import opened PathProcessing
  import opened RouteUpdaters

  /** `route_ttl`: a route unused for longer than this many seconds expires. */
  const RouteTtl: real := 15.0

  /** `_update_route` gives up after this many failed requests. */
  const MaxUpdateAttempts: nat := 3

  /** Which reading of the two doubtful checks the manager runs: the id bound
      of the intermediate-node check, and whether the cleanup prunes the
      registry entries of ended threads (`PruneDead`) or, as written, those of
      uncached destinations (`PruneWritten`). */
  datatype Variant = Variant(idLimit: int, pruneDead: bool)

  /** The manager as the source writes it. */
  const AsWritten := Variant(WrittenIdLimit, false)

  /** The manager with both checks as they are evidently intended. */
  const Corrected := Variant(IntendedIdLimit, true)

  /** `_process_path` under a variant. */
  function Process(v: Variant, r: PathReply): Processed
  {
    ProcessWith(r, v.idLimit)
  }

  /** The registry pruning of `_cleanup_loop` under a variant; `cached` is the
      set of destinations still cached after the expiry. */
  function Prune(v: Variant, u: Updaters, cached: set<Addr>): Updaters
  {
    if v.pruneDead then PruneDead(u) else PruneWritten(u, cached)
  }

  /** One cache entry: the segment list, its first element (the next hop),
      and when the route was last used and last refreshed. */
  datatype Route = Route(segments: seq<Addr>, nextHop: Addr, lastUsed: real, updateTime: real)

  /** The manager's state. `order` is the insertion order of `routes` (Python
      dictionaries iterate in that order), `kernel` the SRv6 routes present in
      the kernel, `updaters` the updater registry and live updater threads. */
  datatype Table = Table(routes: map<Addr, Route>, order: seq<Addr>,
                         kernel: map<Addr, seq<Addr>>, updaters: Updaters)

  const EmptyTable := Table(map[], [], map[], NoUpdaters)

  predicate Distinct(s: seq<Addr>)
  {
    forall i, j | 0 <= i < j < |s| :: s[i] != s[j]
  }

  /** The order lists each cached destination exactly once. */
  ghost predicate OrderMatches(order: seq<Addr>, routes: map<Addr, Route>)
  {
    Distinct(order) && forall d :: d in order <==> d in routes
  }

  /** Every cached route has a non-empty segment list whose first element is
      its next hop. */
  predicate WellFormed(routes: map<Addr, Route>)
  {
    forall d | d in routes :: routes[d].segments != [] && routes[d].nextHop == routes[d].segments[0]
  }

  /** The kernel holds every cached route with its segments. A route whose
      `ip -6 route del` failed stays in the kernel after it has left the
      cache, so the kernel may hold more. */
  predicate KernelHolds(kernel: map<Addr, seq<Addr>>, routes: map<Addr, Route>)
  {
    forall d | d in routes :: d in kernel && kernel[d] == routes[d].segments
  }

  /** The updater registry is truthful and every cached destination has a
      live registered updater; with the corrected pruning the registry is
      moreover the exact inverse of the live threads. */
  predicate Covered(v: Variant, u: Updaters, routes: map<Addr, Route>)
  {
    Truthful(u) && Serviced(u, routes.Keys) && (v.pruneDead ==> Consistent(u))
  }

  /** What the manager maintains. */
  ghost predicate Inv(v: Variant, t: Table)
  {
    && OrderMatches(t.order, t.routes)
    && WellFormed(t.routes)
    && KernelHolds(t.kernel, t.routes)
    && Covered(v, t.updaters, t.routes)
  }

  lemma EmptyTableInv(v: Variant)
    ensures Inv(v, EmptyTable)
  {
  }

  /** Deleting a key from a dictionary: every other key keeps its place. */
  function Without(s: seq<Addr>, x: Addr): (r: seq<Addr>)
    ensures forall d :: d in r <==> d in s && d != x
    ensures Distinct(s) ==> Distinct(r)
  {
    if s == [] then []
    else
      var rest := Without(s[1..], x);
      assert Distinct(s) ==> Distinct(s[1..]) && s[0] !in rest;
      (if s[0] == x then [] else [s[0]]) + rest
  }

  /** `_install_route`: an empty segment list or a failing `ip -6 route replace`
      changes nothing; otherwise the kernel route and the cache entry are
      written (next hop = first segment, both timestamps = now), and a
      destination that was not cached joins the end of the order and gets an
      updater. */
  function Install(t: Table, dest: Addr, segs: seq<Addr>, cmdOk: bool, now: real): (r: Table)
    ensures t.routes.Keys <= r.routes.Keys
  {
    if segs == [] || !cmdOk then t
    else
      var isNew := dest !in t.routes;
      Table(t.routes[dest := Route(segs, segs[0], now, now)],
            if isNew then t.order + [dest] else t.order,
            t.kernel[dest := segs],
            if isNew then Schedule(t.updaters, dest) else t.updaters)
  }

  /** `_remove_route` followed by deleting the cache entry. A failing
      `ip -6 route del` is reported and ignored: the kernel route stays, and
      the cache entry goes all the same. */
  function Remove(t: Table, dest: Addr, delOk: bool): Table
  {
    Table(t.routes - {dest}, Without(t.order, dest),
          if delOk then t.kernel - {dest} else t.kernel, t.updaters)
  }

  /** Marking a cached route as used now. */
  function Touch(t: Table, d: Addr, now: real): Table
    requires d in t.routes
  {
    t.(routes := t.routes[d := t.routes[d].(lastUsed := now)])
  }

  /** `_route_manager`, given the path service's answer to the query
      `BuildPathUrl(node, dest)`. A failed request, or a reply `_process_path`
      rejects, changes nothing. An accepted path without intermediate nodes
      withdraws a cached route to its destination. Otherwise a cached route
      with other segments is re-installed, one with the same segments is only
      marked used, and an uncached destination is installed. */
  function Manage(v: Variant, t: Table, reply: HttpResult, cmdOk: bool, delOk: bool, now: real): Table
  {
    match reply
    case Failed => t
    case Body(r) =>
      var p := Process(v, r);
      if p.final.None? then t
      else
        var f := p.final.value;
        if p.hops == [] then (if f in t.routes then Remove(t, f, delOk) else t)
        else if f in t.routes then
          (if p.hops != t.routes[f].segments then Install(t, f, p.hops, cmdOk, now)
           else Touch(t, f, now))
        else Install(t, f, p.hops, cmdOk, now)
  }

  /** The body of one successful `_update_route` request for a cached `dest`:
      new segments are installed (under the destination the reply names), and
      the refresh time of `dest` is set in every case. A rejected reply has no
      destination and no segments; installing those is a no-op. */
  function Refresh(t: Table, dest: Addr, p: Processed, cmdOk: bool, now: real): Table
    requires dest in t.routes
  {
    var t1 := if p.hops != t.routes[dest].segments && p.final.Some? then
                Install(t, p.final.value, p.hops, cmdOk, now)
              else t;
    t1.(routes := t1.routes[dest := t1.routes[dest].(updateTime := now)])
  }

  /** `_update_route` over the outcomes of its successive requests: failed
      requests are retried, the first reply is processed, and a destination
      that has left the cache ends the update. */
  function Update(v: Variant, t: Table, dest: Addr, attempts: seq<HttpResult>, cmdOk: bool, now: real): Table
    decreases |attempts|
  {
    if attempts == [] || dest !in t.routes then t
    else
      match attempts[0]
      case Failed => Update(v, t, dest, attempts[1..], cmdOk, now)
      case Body(r) => Refresh(t, dest, Process(v, r), cmdOk, now)
  }

  /** At most `MaxUpdateAttempts` requests are made. */
  function Attempts(attempts: seq<HttpResult>): seq<HttpResult>
  {
    if |attempts| <= MaxUpdateAttempts then attempts else attempts[..MaxUpdateAttempts]
  }

  /** One round of an updater thread: it exits (and drops its registry entry)
      once its destination has left the cache, and otherwise updates it. */
  function UpdaterStep(v: Variant, t: Table, th: nat, attempts: seq<HttpResult>, cmdOk: bool, now: real): Table
    requires th in t.updaters.running
  {
    var d := t.updaters.running[th];
    if d !in t.routes then t.(updaters := Exit(t.updaters, th))
    else Update(v, t, d, Attempts(attempts), cmdOk, now)
  }

  predicate Expired(routes: map<Addr, Route>, d: Addr, now: real)
  {
    d in routes && now - routes[d].lastUsed > RouteTtl
  }

  /** The expired destinations of `s`, in the order of `s`. */
  function ExpiredIn(s: seq<Addr>, routes: map<Addr, Route>, now: real): (r: seq<Addr>)
    ensures forall d :: d in r <==> d in s && Expired(routes, d, now)
    ensures Distinct(s) ==> Distinct(r)
  {
    if s == [] then []
    else
      var front := ExpiredIn(s[..|s| - 1], routes, now);
      var last := s[|s| - 1];
      assert forall d :: d in s <==> d in s[..|s| - 1] || d == last;
      assert Distinct(s) ==> Distinct(s[..|s| - 1]) && last !in s[..|s| - 1];
      front + (if Expired(routes, last, now) then [last] else [])
  }

  /** Removing the destinations `xs` one after another; the kernel refuses to
      delete the routes of `failed`. */
  function RemoveAll(t: Table, xs: seq<Addr>, failed: set<Addr>): Table
  {
    if xs == [] then t
    else
      var x := xs[|xs| - 1];
      Remove(RemoveAll(t, xs[..|xs| - 1], failed), x, x !in failed)
  }

  /** One sweep of `_cleanup_loop`: every expired route is withdrawn and
      dropped, then the registry is pruned against the destinations still
      cached. */
  function Cleanup(v: Variant, t: Table, failed: set<Addr>, now: real): Table
  {
    var t1 := RemoveAll(t, ExpiredIn(t.order, t.routes, now), failed);
    t1.(updaters := Prune(v, t1.updaters, t1.routes.Keys))
  }

  /** The route whose destination or next hop is `dest`. */
  predicate Matches(t: Table, d: Addr, dest: Addr)
  {
    d in t.routes && (d == dest || t.routes[d].nextHop == dest)
  }

  /** The first position at or after `i` whose route matches `dest`, or the
      length of the order when there is none. */
  function MatchFrom(t: Table, dest: Addr, i: nat): (k: nat)
    requires i <= |t.order|
    ensures i <= k <= |t.order|
    ensures forall j | i <= j < k :: !Matches(t, t.order[j], dest)
    ensures k < |t.order| ==> Matches(t, t.order[k], dest)
    decreases |t.order| - i
  {
    if i == |t.order| || Matches(t, t.order[i], dest) then i else MatchFrom(t, dest, i + 1)
  }

  /** `handle_event` for one outgoing packet from `src` to `dest`, given the
      node's own address and its neighbour address (own address minus one):
      packets to either of those, or not sent by the node itself, are ignored;
      for a private destination the first cached route (in insertion order)
      whose destination or next hop is `dest` is marked used, and when there is
      none the route manager runs. */
  function Event(v: Variant, t: Table, me: Addr, neighbour: Addr, src: Addr, dest: Addr,
                 now: real, reply: HttpResult, cmdOk: bool, delOk: bool): Table
  {
    if dest == me || dest == neighbour || src != me || !IsPrivate(dest) then t
    else
      var k := MatchFrom(t, dest, 0);
      if k < |t.order| then Touch(t, t.order[k], now) else Manage(v, t, reply, cmdOk, delOk, now)
  }

  // ---------------------------------------------------------------------
  // Every operation keeps the invariant, under either variant.

  /** Appending a new destination keeps the order in step with the cache. */
  lemma AppendOrder(order: seq<Addr>, routes: map<Addr, Route>, dest: Addr, r: Route)
    requires OrderMatches(order, routes) && dest !in routes
    ensures OrderMatches(order + [dest], routes[dest := r])
  {
    var o := order + [dest];
    assert dest !in order;
    assert forall d :: d in o <==> d in order || d == dest;
    forall i, j | 0 <= i < j < |o|
      ensures o[i] != o[j]
    {
      if j < |order| {
        assert o[i] == order[i] && o[j] == order[j];
      } else {
        assert o[i] == order[i];
      }
    }
  }

  lemma InstallInv(v: Variant, t: Table, dest: Addr, segs: seq<Addr>, cmdOk: bool, now: real)
    requires Inv(v, t)
    ensures Inv(v, Install(t, dest, segs, cmdOk, now))
  {
    if segs != [] && cmdOk {
      if dest !in t.routes {
        InstallNewInv(v, t, dest, segs, now);
      } else {
        InstallCachedInv(v, t, dest, segs, now);
      }
    }
  }

  /** Installing a route to a destination not yet cached appends it to the
      order and schedules its updater. */
  lemma InstallNewInv(v: Variant, t: Table, dest: Addr, segs: seq<Addr>, now: real)
    requires Inv(v, t) && segs != [] && dest !in t.routes
    ensures Inv(v, Install(t, dest, segs, true, now))
  {
    var r := Install(t, dest, segs, true, now);
    var route := Route(segs, segs[0], now, now);
    assert r.routes == t.routes[dest := route];
    assert r.routes.Keys == t.routes.Keys + {dest};
    AppendOrder(t.order, t.routes, dest, route);
    ScheduleServiced(t.updaters, dest, t.routes.Keys);
    if v.pruneDead {
      ScheduleConsistent(t.updaters, dest);
    }
    assert Covered(v, r.updaters, r.routes);
    assert KernelHolds(r.kernel, r.routes);
  }

  /** Replacing the route of a cached destination keeps the order and the
      updaters. */
  lemma InstallCachedInv(v: Variant, t: Table, dest: Addr, segs: seq<Addr>, now: real)
    requires Inv(v, t) && segs != [] && dest in t.routes
    ensures Inv(v, Install(t, dest, segs, true, now))
  {
    var r := Install(t, dest, segs, true, now);
    assert r.routes.Keys == t.routes.Keys;
    assert KernelHolds(r.kernel, r.routes);
  }

  lemma RemoveInv(v: Variant, t: Table, dest: Addr, delOk: bool)
    requires Inv(v, t)
    ensures Inv(v, Remove(t, dest, delOk))
  {
    var r := Remove(t, dest, delOk);
    assert OrderMatches(r.order, r.routes);
    assert KernelHolds(r.kernel, r.routes);
  }

  lemma TouchInv(v: Variant, t: Table, d: Addr, now: real)
    requires Inv(v, t) && d in t.routes
    ensures Inv(v, Touch(t, d, now))
  {
  }

  lemma ManageInv(v: Variant, t: Table, reply: HttpResult, cmdOk: bool, delOk: bool, now: real)
    requires Inv(v, t)
    ensures Inv(v, Manage(v, t, reply, cmdOk, delOk, now))
  {
    if reply.Body? {
      var p := Process(v, reply.reply);
      if p.final.Some? {
        var f := p.final.value;
        if p.hops == [] {
          RemoveInv(v, t, f, delOk);
        } else if f in t.routes && p.hops == t.routes[f].segments {
          TouchInv(v, t, f, now);
        } else {
          InstallInv(v, t, f, p.hops, cmdOk, now);
        }
      }
    }
  }

  lemma RefreshInv(v: Variant, t: Table, dest: Addr, p: Processed, cmdOk: bool, now: real)
    requires Inv(v, t) && dest in t.routes
    ensures Inv(v, Refresh(t, dest, p, cmdOk, now))
  {
    var t1 := if p.hops != t.routes[dest].segments && p.final.Some? then
                Install(t, p.final.value, p.hops, cmdOk, now)
              else t;
    if p.hops != t.routes[dest].segments && p.final.Some? {
      InstallInv(v, t, p.final.value, p.hops, cmdOk, now);
    }
    assert Inv(v, t1) && dest in t1.routes;
    StampInv(v, t1, dest, now);
  }

  /** Setting a cached route's refresh time keeps the invariant. */
  lemma StampInv(v: Variant, t: Table, dest: Addr, now: real)
    requires Inv(v, t) && dest in t.routes
    ensures Inv(v, t.(routes := t.routes[dest := t.routes[dest].(updateTime := now)]))
  {
  }

  lemma {:induction false} UpdateInv(v: Variant, t: Table, dest: Addr, attempts: seq<HttpResult>,
                                     cmdOk: bool, now: real)
    requires Inv(v, t)
    ensures Inv(v, Update(v, t, dest, attempts, cmdOk, now))
    decreases |attempts|
  {
    if attempts != [] && dest in t.routes {
      match attempts[0]
      case Failed => UpdateInv(v, t, dest, attempts[1..], cmdOk, now);
      case Body(r) => RefreshInv(v, t, dest, Process(v, r), cmdOk, now);
    }
  }

  lemma UpdaterStepInv(v: Variant, t: Table, th: nat, attempts: seq<HttpResult>, cmdOk: bool, now: real)
    requires Inv(v, t) && th in t.updaters.running
    ensures Inv(v, UpdaterStep(v, t, th, attempts, cmdOk, now))
  {
    var d := t.updaters.running[th];
    if d !in t.routes {
      ExitServiced(t.updaters, th, t.routes.Keys);
      if v.pruneDead {
        ExitConsistent(t.updaters, th);
      }
    } else {
      UpdateInv(v, t, d, Attempts(attempts), cmdOk, now);
    }
  }

  /** Removing a list of destinations keeps the invariant, drops exactly those
      destinations and leaves every other route as it was; their kernel routes
      go unless the kernel refuses the delete. */
  lemma {:induction false} RemoveAllInv(v: Variant, t: Table, xs: seq<Addr>, failed: set<Addr>)
    requires Inv(v, t)
    ensures var r := RemoveAll(t, xs, failed);
            Inv(v, r) && r.updaters == t.updaters &&
            (forall d :: d in r.routes <==> d in t.routes && d !in xs) &&
            (forall d | d in r.routes :: r.routes[d] == t.routes[d]) &&
            (forall d :: d in r.kernel <==> d in t.kernel && (d !in xs || d in failed)) &&
            (forall d | d in r.kernel :: r.kernel[d] == t.kernel[d])
    decreases |xs|
  {
    if xs != [] {
      var front := xs[..|xs| - 1];
      var x := xs[|xs| - 1];
      RemoveAllInv(v, t, front, failed);
      RemoveInv(v, RemoveAll(t, front, failed), x, x !in failed);
      assert forall d :: d in xs <==> d in front || d == x;
    }
  }

  /** After a sweep every remaining route has been used within the TTL, and
      every route that had been used within the TTL is still there,
      unchanged; an expired route stays in the kernel exactly when the kernel
      refused its delete. */
  lemma CleanupInv(v: Variant, t: Table, failed: set<Addr>, now: real)
    requires Inv(v, t)
    ensures var r := Cleanup(v, t, failed, now);
            Inv(v, r) &&
            (forall d | d in r.routes :: now - r.routes[d].lastUsed <= RouteTtl) &&
            (forall d | d in t.routes && now - t.routes[d].lastUsed <= RouteTtl ::
               d in r.routes && r.routes[d] == t.routes[d]) &&
            (forall d | d in t.routes && now - t.routes[d].lastUsed > RouteTtl ::
               d !in r.routes && (d in r.kernel <==> d in failed))
  {
    var xs := ExpiredIn(t.order, t.routes, now);
    RemoveAllInv(v, t, xs, failed);
    var t1 := RemoveAll(t, xs, failed);
    PruneServiced(t1.updaters, t1.routes.Keys);
    if v.pruneDead {
      PruneDeadConsistent(t1.updaters);
    }
  }

  lemma EventInv(v: Variant, t: Table, me: Addr, neighbour: Addr, src: Addr, dest: Addr,
                 now: real, reply: HttpResult, cmdOk: bool, delOk: bool)
    requires Inv(v, t)
    ensures Inv(v, Event(v, t, me, neighbour, src, dest, now, reply, cmdOk, delOk))
  {
    if !(dest == me || dest == neighbour || src != me || !IsPrivate(dest)) {
      var k := MatchFrom(t, dest, 0);
      if k < |t.order| {
        TouchInv(v, t, t.order[k], now);
      } else {
        ManageInv(v, t, reply, cmdOk, delOk, now);
      }
    }
  }

  // ---------------------------------------------------------------------
  // What the operations achieve.

  /** Under either variant, every cached destination is refreshed by its
      registered updater thread, which is alive. */
  lemma CachedRouteRefreshed(v: Variant, t: Table, d: Addr)
    requires Inv(v, t) && d in t.routes
    ensures d in t.updaters.registry && t.updaters.registry[d] in Refreshers(t.updaters, d)
  {
  }

  /** With the corrected pruning, every cached destination is refreshed by
      exactly one live updater. */
  lemma CachedRouteHasOneUpdater(v: Variant, t: Table, d: Addr)
    requires Inv(v, t) && v.pruneDead && d in t.routes
    ensures |Refreshers(t.updaters, d)| == 1
  {
    ConsistentMeansUnique(t.updaters, d);
  }

  /** An updater thread as written leaves in two steps: it finds its
      destination gone from the cache under the cache lock, and later, under
      the registry lock, deletes the destination's registry entry. A re-install
      in between finds the old thread alive and starts none, so the deletion
      leaves a cached destination with no registered updater. `UpdaterStep`
      takes the two as one step, which keeps the invariant. */
  lemma ExitWindowLeavesDestUnserviced(v: Variant, t: Table, th: nat, h: Addr, now: real)
    requires Inv(v, t) && th in t.updaters.running
    requires t.updaters.running[th] !in t.routes
    requires t.updaters.running[th] in t.updaters.registry
    requires t.updaters.registry[t.updaters.running[th]] == th
    ensures var d := t.updaters.running[th];
            var r := Install(t, d, [h], true, now);
            var w := r.(updaters := Exit(r.updaters, th));
            r.updaters == t.updaters && d in w.routes && d !in w.updaters.registry && !Inv(v, w)
  {
    var d := t.updaters.running[th];
    var r := Install(t, d, [h], true, now);
    assert r.updaters == t.updaters;
    var w := r.(updaters := Exit(r.updaters, th));
    assert d in w.routes.Keys && d !in w.updaters.registry;
    assert !Serviced(w.updaters, w.routes.Keys);
  }

  /** That state is reached under either variant: a route is installed, the
      route manager withdraws it, and its updater, still registered, sees the
      cache without it. */
  lemma WithdrawOpensExitWindow(v: Variant, d: Addr, h: Addr)
    ensures var t := Remove(OneRoute(d, h), d, true);
            Inv(v, t) && 0 in t.updaters.running && t.updaters.running[0] == d &&
            d !in t.routes && d in t.updaters.registry && t.updaters.registry[d] == 0
  {
    EmptyTableInv(v);
    InstallInv(v, EmptyTable, d, [h], true, 0.0);
    RemoveInv(v, OneRoute(d, h), d, true);
    OneRouteIs(d, h);
  }

  /** The table after installing one route to `d` at time 0. */
  function OneRoute(d: Addr, h: Addr): Table
  {
    Install(EmptyTable, d, [h], true, 0.0)
  }

  /** That table caches `d`, holds its kernel route and runs updater 0 for it. */
  lemma OneRouteIs(d: Addr, h: Addr)
    ensures OneRoute(d, h) == Table(map[d := Route([h], h, 0.0, 0.0)], [d], map[d := [h]],
                                    Updaters(map[d := 0], map[0 := d], 1))
  {
  }

  /** Twenty seconds later a sweep expires that route and empties the cache;
      only the registry pruning differs between the variants. */
  lemma SweepExpiresOneRoute(v: Variant, d: Addr, h: Addr)
    ensures Cleanup(v, OneRoute(d, h), {}, 20.0) ==
            Table(map[], [], map[], Prune(v, OneRoute(d, h).updaters, {}))
  {
    var t0 := OneRoute(d, h);
    assert ExpiredIn(t0.order, t0.routes, 20.0) == [d] by {
      OneRouteIs(d, h);
      assert [d][..0] == [];
    }
    assert RemoveAll(t0, [d], {}) == Table(map[], [], map[], t0.updaters) by {
      OneRouteIs(d, h);
      assert RemoveAll(t0, [], {}) == t0;
      assert RemoveAll(t0, [d], {}) == Remove(t0, d, true);
      assert Without([d], d) == [];
    }
  }

  /** As written, a route that expires and is installed again before its old
      updater wakes up ends with two live updaters; with the corrected pruning
      the old updater goes on alone. */
  lemma SweepOrphansUpdater(d: Addr, h: Addr)
    ensures var w := Install(Cleanup(AsWritten, OneRoute(d, h), {}, 20.0), d, [h], true, 21.0);
            var c := Install(Cleanup(Corrected, OneRoute(d, h), {}, 20.0), d, [h], true, 21.0);
            Refreshers(w.updaters, d) == {0, 1} && Refreshers(c.updaters, d) == {0}
  {
    SweepWrittenReinstall(d, h);
    SweepCorrectedReinstall(d, h);
  }

  /** The as-written half of SweepOrphansUpdater. */
  lemma SweepWrittenReinstall(d: Addr, h: Addr)
    ensures Refreshers(Install(Cleanup(AsWritten, OneRoute(d, h), {}, 20.0), d, [h], true, 21.0).updaters, d) == {0, 1}
  {
    var u := Schedule(NoUpdaters, d);
    assert OneRoute(d, h).updaters == u by {
      OneRouteIs(d, h);
    }
    SweepExpiresOneRoute(AsWritten, d, h);
    ReinstallSchedules(Table(map[], [], map[], PruneWritten(u, {})), d, h, 21.0);
    TwoUpdatersForOneDestination(d);
  }

  /** The corrected half of SweepOrphansUpdater. */
  lemma SweepCorrectedReinstall(d: Addr, h: Addr)
    ensures Refreshers(Install(Cleanup(Corrected, OneRoute(d, h), {}, 20.0), d, [h], true, 21.0).updaters, d) == {0}
  {
    var u := Schedule(NoUpdaters, d);
    assert OneRoute(d, h).updaters == u by {
      OneRouteIs(d, h);
    }
    SweepExpiresOneRoute(Corrected, d, h);
    ReinstallSchedules(Table(map[], [], map[], PruneDead(u)), d, h, 21.0);
    OneUpdaterForOneDestination(d);
  }

  /** Installing into an empty cache schedules an updater. */
  lemma ReinstallSchedules(t: Table, d: Addr, h: Addr, now: real)
    requires t.routes == map[]
    ensures Install(t, d, [h], true, now).updaters == Schedule(t.updaters, d)
  {
  }

  /** A successful installation puts the segment list into both the kernel and
      the cache, with its first segment as next hop, and the destination has a
      live updater (exactly one with the corrected pruning). */
  lemma InstallInstalls(v: Variant, t: Table, dest: Addr, segs: seq<Addr>, now: real)
    requires Inv(v, t) && segs != []
    ensures var r := Install(t, dest, segs, true, now);
            dest in r.routes && r.routes[dest] == Route(segs, segs[0], now, now) &&
            dest in r.kernel && r.kernel[dest] == segs &&
            r.updaters.registry[dest] in Refreshers(r.updaters, dest) &&
            (v.pruneDead ==> |Refreshers(r.updaters, dest)| == 1)
  {
    InstallInv(v, t, dest, segs, true, now);
    CachedRouteRefreshed(v, Install(t, dest, segs, true, now), dest);
    if v.pruneDead {
      CachedRouteHasOneUpdater(v, Install(t, dest, segs, true, now), dest);
    }
  }

  /** The route manager installs the accepted path's hops as the route to the
      path's destination when the command succeeds; a path without hops leaves
      no route to its destination in the cache, and withdraws its kernel route
      unless the kernel refuses. */
  lemma ManageOutcome(v: Variant, t: Table, r: PathReply, delOk: bool, now: real)
    requires Inv(v, t) && Process(v, r).final.Some?
    ensures var p := Process(v, r);
            var f := p.final.value;
            var u := Manage(v, t, Body(r), true, delOk, now);
            (p.hops == [] ==> f !in u.routes &&
                              u.kernel == (if delOk && f in t.routes then t.kernel - {f} else t.kernel)) &&
            (p.hops != [] ==> f in u.routes && u.routes[f].segments == p.hops &&
                              u.routes[f].lastUsed == now && u.kernel[f] == p.hops)
  {
    var p := Process(v, r);
    var f := p.final.value;
    if p.hops != [] && !(f in t.routes && p.hops == t.routes[f].segments) {
      InstallInstalls(v, t, f, p.hops, now);
    }
  }

  /** A refresh whose reply was rejected, named no hops or the segments
      already stored, or whose command failed, only stamps the refresh time of
      `dest`: its segments and its last use stay, and nothing else changes. */
  lemma RefreshKeepsRoute(t: Table, dest: Addr, p: Processed, cmdOk: bool, now: real)
    requires dest in t.routes
    requires p.final.None? || p.hops == [] || !cmdOk || p.hops == t.routes[dest].segments
    ensures var u := Refresh(t, dest, p, cmdOk, now);
            u.routes == t.routes[dest := t.routes[dest].(updateTime := now)] &&
            u.order == t.order && u.kernel == t.kernel && u.updaters == t.updaters
  {
  }

  /** A refresh whose reply names another destination installs that route
      (or leaves it, when the hops are the stored ones of `dest` or the
      command fails); `dest`'s own route is only stamped, its kernel route
      stays, and every other route is untouched. */
  lemma RefreshOtherStampsOnly(t: Table, dest: Addr, p: Processed, cmdOk: bool, now: real)
    requires dest in t.routes && p.final.Some? && p.final.value != dest
    ensures var u := Refresh(t, dest, p, cmdOk, now);
            var f := p.final.value;
            u.routes[dest] == t.routes[dest].(updateTime := now) &&
            (dest in t.kernel ==> dest in u.kernel && u.kernel[dest] == t.kernel[dest]) &&
            (forall e | e in t.routes && e != dest && e != f :: e in u.routes && u.routes[e] == t.routes[e]) &&
            (p.hops != [] && cmdOk && p.hops != t.routes[dest].segments ==>
               f in u.routes && u.routes[f] == Route(p.hops, p.hops[0], now, now) && u.kernel[f] == p.hops)
  {
  }

  /** A refresh whose reply names `dest` itself with other hops re-installs
      the route when the command succeeds: the hops become its segments in
      cache and kernel, and its last use is reset. */
  lemma RefreshReinstalls(t: Table, dest: Addr, p: Processed, now: real)
    requires dest in t.routes && p.final == Some(dest) && p.hops != []
    requires p.hops != t.routes[dest].segments
    ensures var u := Refresh(t, dest, p, true, now);
            u.routes[dest] == Route(p.hops, p.hops[0], now, now) && u.kernel[dest] == p.hops &&
            u.order == t.order && u.updaters == t.updaters
  {
  }

  /** `_update_route` for a destination that is not cached does nothing. */
  lemma UpdateAbsent(v: Variant, t: Table, dest: Addr, attempts: seq<HttpResult>, cmdOk: bool, now: real)
    requires dest !in t.routes
    ensures Update(v, t, dest, attempts, cmdOk, now) == t
  {
  }

  /** When every request fails, `_update_route` leaves the table as it was. */
  lemma {:induction false} UpdateAllFailed(v: Variant, t: Table, dest: Addr, attempts: seq<HttpResult>,
                                           cmdOk: bool, now: real)
    requires forall i | 0 <= i < |attempts| :: attempts[i].Failed?
    ensures Update(v, t, dest, attempts, cmdOk, now) == t
    decreases |attempts|
  {
    if attempts != [] && dest in t.routes {
      assert attempts[0].Failed?;
      UpdateAllFailed(v, t, dest, attempts[1..], cmdOk, now);
    }
  }

  /** A matched packet only marks the first matching route as used. */
  lemma EventTouchesFirstMatch(v: Variant, t: Table, me: Addr, neighbour: Addr, src: Addr, dest: Addr,
                               now: real, reply: HttpResult, cmdOk: bool, delOk: bool, k: nat)
    requires Inv(v, t) && src == me && dest != me && dest != neighbour && IsPrivate(dest)
    requires k < |t.order| && Matches(t, t.order[k], dest)
    requires forall j | 0 <= j < k :: !Matches(t, t.order[j], dest)
    ensures var u := Event(v, t, me, neighbour, src, dest, now, reply, cmdOk, delOk);
            u.routes.Keys == t.routes.Keys && u.kernel == t.kernel && u.order == t.order &&
            u.routes[t.order[k]] == t.routes[t.order[k]].(lastUsed := now) &&
            (forall d | d in t.routes && d != t.order[k] :: u.routes[d] == t.routes[d])
  {
    assert MatchFrom(t, dest, 0) == k;
  }

  // ---------------------------------------------------------------------

  /** The list `_cleanup_loop` builds of the cached routes idle for longer
      than the TTL, in cache order. */
  method CollectExpired(order: seq<Addr>, routes: map<Addr, Route>, now: real) returns (expired: seq<Addr>)
    requires forall k | 0 <= k < |order| :: order[k] in routes
    ensures expired == ExpiredIn(order, routes, now)
  {
    expired := [];
    for i := 0 to |order|
      invariant expired == ExpiredIn(order[..i], routes, now)
    {
      assert order[..i + 1][..i] == order[..i];
      if now - routes[order[i]].lastUsed > RouteTtl {
        expired := expired + [order[i]];
      }
    }
    assert order[..|order|] == order;
  }

  /** `SRv6DynamicRouter`, performing the operations above in place under the
      variant it is built with (`AsWritten` for the source). The kernel routes
      are ghost state: the router reaches them only through `ip -6 route`
      commands, whose success is a parameter here (`cmdOk` for `replace`,
      `delOk` or the refused set `failed` for `del`). */
  class Router {
    const node: NodeId
    const variant: Variant
    const selfAddr: Addr
    const neighbourAddr: Addr
    var routes: map<Addr, Route>
    var order: seq<Addr>
    var updaters: Updaters
    ghost var kernel: map<Addr, seq<Addr>>

    ghost function State(): Table
      reads this
    {
      Table(routes, order, kernel, updaters)
    }

    ghost predicate Valid()
      reads this
    {
      && selfAddr == CalculateIp(node.shell, node.id)
      && selfAddr[5].v >= 1
      && neighbourAddr == Predecessor(selfAddr)
      && Inv(variant, State())
    }

    /** `__init__`: the node's own address must be a valid IPv6 address, and
        the neighbour address is the one below it. */
    constructor (node: NodeId, variant: Variant)
      requires 0 <= node.shell <= 0xFFFF
      ensures Valid() && this.node == node && this.variant == variant && State() == EmptyTable
    {
      this.node := node;
      this.variant := variant;
      var a := CalculateIp(node.shell, node.id);
      selfAddr := a;
      neighbourAddr := Predecessor(a);
      routes := map[];
      order := [];
      updaters := NoUpdaters;
      kernel := map[];
      EmptyTableInv(variant);
    }

    method ScheduleUpdater(dest: Addr)
      modifies this`updaters
      ensures updaters == Schedule(old(updaters), dest)
    {
      if dest in updaters.registry && updaters.registry[dest] in updaters.running {
        return;
      }
      var th := updaters.next;
      updaters := Updaters(updaters.registry[dest := th], updaters.running[th := dest], th + 1);
    }

    method InstallRoute(dest: Addr, segs: seq<Addr>, cmdOk: bool, now: real)
      requires Valid()
      modifies this
      ensures Valid() && State() == Install(old(State()), dest, segs, cmdOk, now)
    {
      ghost var t0 := State();
      if segs == [] || !cmdOk {
        return;
      }
      var isNew := dest !in routes;
      kernel := kernel[dest := segs];
      routes := routes[dest := Route(segs, segs[0], now, now)];
      if isNew {
        order := order + [dest];
        ScheduleUpdater(dest);
      }
      InstallInv(variant, t0, dest, segs, cmdOk, now);
    }

    /** `_remove_route`: the kernel route goes unless the kernel refuses; the
        cache is the caller's. */
    method RemoveRoute(dest: Addr, delOk: bool)
      modifies this`kernel
      ensures kernel == if delOk then old(kernel) - {dest} else old(kernel)
    {
      if delOk {
        kernel := kernel - {dest};
      }
    }

    /** `_remove_route` and the deletion of the cache entry that follows it. */
    method Drop(dest: Addr, delOk: bool)
      requires Valid()
      modifies this
      ensures Valid() && State() == Remove(old(State()), dest, delOk)
    {
      RemoveRoute(dest, delOk);
      routes := routes - {dest};
      order := Without(order, dest);
      RemoveInv(variant, old(State()), dest, delOk);
    }

    method RouteManagerStep(reply: HttpResult, cmdOk: bool, delOk: bool, now: real)
      requires Valid()
      modifies this
      ensures Valid() && State() == Manage(variant, old(State()), reply, cmdOk, delOk, now)
    {
      ghost var t0 := State();
      ManageInv(variant, t0, reply, cmdOk, delOk, now);
      if reply.Failed? {
        return;
      }
      var final, hops := ProcessPath(reply.reply, variant.idLimit);
      if final.None? {
        return;
      }
      var f := final.value;
      if hops == [] {
        if f in routes {
          Drop(f, delOk);
        }
        return;
      }
      if f in routes {
        if hops != routes[f].segments {
          InstallRoute(f, hops, cmdOk, now);
        } else {
          routes := routes[f := routes[f].(lastUsed := now)];
        }
      } else {
        InstallRoute(f, hops, cmdOk, now);
      }
    }

    method UpdateRoute(dest: Addr, attempts: seq<HttpResult>, cmdOk: bool, now: real)
      requires Valid()
      modifies this
      ensures Valid() && State() == Update(variant, old(State()), dest, Attempts(attempts), cmdOk, now)
    {
      ghost var t0 := State();
      ghost var tries := Attempts(attempts);
      UpdateInv(variant, t0, dest, tries, cmdOk, now);
      var i := 0;
      while i < |attempts| && i < MaxUpdateAttempts
        invariant 0 <= i <= |tries|
        invariant tries[..] == attempts[..|tries|]
        invariant State() == t0
        invariant Update(variant, t0, dest, tries, cmdOk, now) == Update(variant, t0, dest, tries[i..], cmdOk, now)
      {
        assert tries[i] == attempts[i];
        if dest !in routes {
          return;
        }
        if attempts[i].Body? {
          RefreshRoute(dest, attempts[i].reply, cmdOk, now);
          return;
        }
        assert tries[i..][1..] == tries[i + 1..];
        i := i + 1;
      }
    }

    /** What `_update_route` does with a reply for the cached destination
        `dest`: installs the new segments when they changed, and stamps the
        refresh time of `dest`. */
    method RefreshRoute(dest: Addr, reply: PathReply, cmdOk: bool, now: real)
      requires Valid() && dest in routes
      modifies this
      ensures Valid() && State() == Refresh(old(State()), dest, Process(variant, reply), cmdOk, now)
    {
      RefreshInv(variant, State(), dest, Process(variant, reply), cmdOk, now);
      var final, hops := ProcessPath(reply, variant.idLimit);
      // A rejected reply has no destination and no hops; the source then
      // calls `_install_route(None, [])`, which returns at once.
      if hops != routes[dest].segments && final.Some? {
        InstallRoute(final.value, hops, cmdOk, now);
      }
      routes := routes[dest := routes[dest].(updateTime := now)];
    }

    method StepUpdater(th: nat, attempts: seq<HttpResult>, cmdOk: bool, now: real)
      requires Valid() && th in updaters.running
      modifies this
      ensures Valid() && State() == UpdaterStep(variant, old(State()), th, attempts, cmdOk, now)
    {
      var d := updaters.running[th];
      if d !in routes {
        UpdaterStepInv(variant, State(), th, attempts, cmdOk, now);
        updaters := Exit(updaters, th);
        return;
      }
      UpdateRoute(d, attempts, cmdOk, now);
    }

    method DropAll(xs: seq<Addr>, failed: set<Addr>)
      requires Valid()
      modifies this
      ensures Valid() && State() == RemoveAll(old(State()), xs, failed)
    {
      ghost var t0 := State();
      var j := 0;
      while j < |xs|
        invariant 0 <= j <= |xs|
        invariant Valid() && State() == RemoveAll(t0, xs[..j], failed)
      {
        assert xs[..j + 1][..j] == xs[..j];
        Drop(xs[j], xs[j] !in failed);
        j := j + 1;
      }
      assert xs[..j] == xs;
    }

    method CleanupSweep(failed: set<Addr>, now: real)
      requires Valid()
      modifies this
      ensures Valid() && State() == Cleanup(variant, old(State()), failed, now)
    {
      CleanupInv(variant, State(), failed, now);
      var expired := CollectExpired(order, routes, now);
      DropAll(expired, failed);
      if variant.pruneDead {
        updaters := PruneDead(updaters);
      } else {
        updaters := PruneWritten(updaters, routes.Keys);
      }
    }

    /** The position of the first cached route whose destination or next hop
        is `dest`, or the length of the order when there is none. */
    method FindMatch(dest: Addr) returns (i: nat)
      requires Valid()
      ensures i == MatchFrom(State(), dest, 0)
    {
      i := 0;
      while i < |order|
        invariant 0 <= i <= |order|
        invariant forall j | 0 <= j < i :: !Matches(State(), order[j], dest)
      {
        var d := order[i];
        assert d in routes;
        if dest == d || dest == routes[d].nextHop {
          return;
        }
        i := i + 1;
      }
    }

    method HandleEvent(src: Addr, dest: Addr, now: real, reply: HttpResult, cmdOk: bool, delOk: bool)
      requires Valid()
      modifies this
      ensures Valid()
      ensures State() == Event(variant, old(State()), selfAddr, neighbourAddr, src, dest, now,
                               reply, cmdOk, delOk)
    {
      EventInv(variant, State(), selfAddr, neighbourAddr, src, dest, now, reply, cmdOk, delOk);
      if dest == selfAddr || dest == neighbourAddr || src != selfAddr {
        return;
      }
      if !IsPrivate(dest) {
        return;
      }
      var i := FindMatch(dest);
      if i < |order| {
        var d := order[i];
        routes := routes[d := routes[d].(lastUsed := now)];
      } else {
        RouteManagerStep(reply, cmdOk, delOk, now);
      }
    }

    /** Stopping the router asks the kernel to withdraw every cached route:
        afterwards the kernel holds only the routes it had that are not cached
        or whose delete it refused, unchanged. */
    method Shutdown(failed: set<Addr>)
      requires Valid()
      modifies this`kernel
      ensures forall d :: d in kernel <==> d in old(kernel) && (d !in routes || d in failed)
      ensures forall d | d in kernel :: kernel[d] == old(kernel)[d]
    {
      var i := 0;
      while i < |order|
        invariant 0 <= i <= |order|
        invariant forall d :: d in kernel <==> d in old(kernel) && (d !in order[..i] || d in failed)
        invariant forall d | d in kernel :: kernel[d] == old(kernel)[d]
      {
        assert forall d :: d in order[..i + 1] <==> d in order[..i] || d == order[i];
        RemoveRoute(order[i], order[i] !in failed);
        i := i + 1;
      }
      assert order[..i] == order;
    }
  }
}
