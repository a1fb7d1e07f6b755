/** The route manager's registry of per-destination updater threads
    (`update_threads`), next to the set of updater threads that are still
    alive. A thread is named by a number handed out in order; `running` maps
    each live thread to the destination it refreshes. */
module RouteUpdaters {
  import opened AddressCodec

  datatype Updaters = Updaters(registry: map<Addr, nat>, running: map<nat, Addr>, next: nat)

  const NoUpdaters := Updaters(map[], map[], 0)

  /** The registry is the exact inverse of the set of live threads: every
      destination is refreshed by at most one live thread, and that thread is
      the one registered for it. Handles below `next` have been used. */
  predicate Consistent(u: Updaters)
  {
    && (forall d | d in u.registry :: u.registry[d] in u.running && u.running[u.registry[d]] == d)
    && (forall t | t in u.running :: u.running[t] in u.registry && u.registry[u.running[t]] == t)
    && (forall t | t in u.running :: t < u.next)
  }

  /** The number of live threads refreshing `d`. */
  function Refreshers(u: Updaters, d: Addr): set<nat>
  {
    set t | t in u.running && u.running[t] == d
  }

  /** In a consistent registry a destination has at most one live updater. */
  lemma ConsistentMeansUnique(u: Updaters, d: Addr)
    requires Consistent(u)
    ensures |Refreshers(u, d)| <= 1
    ensures d in u.registry ==> Refreshers(u, d) == {u.registry[d]}
    ensures d !in u.registry ==> Refreshers(u, d) == {}
  {
    if d in u.registry {
      assert Refreshers(u, d) == {u.registry[d]};
    } else {
      assert Refreshers(u, d) == {};
    }
  }

  /** `_schedule_updater`: nothing happens when a live thread is registered for
      `d`; otherwise a new thread is started and registered. */
  function Schedule(u: Updaters, d: Addr): (v: Updaters)
    ensures d in v.registry && v.registry[d] in v.running
  {
    if d in u.registry && u.registry[d] in u.running then u
    else Updaters(u.registry[d := u.next], u.running[u.next := d], u.next + 1)
  }

  /** A thread's exit path: it stops, and it deletes whatever entry the
      registry holds for its destination. */
  function Exit(u: Updaters, t: nat): Updaters
    requires t in u.running
  {
    Updaters(u.registry - {u.running[t]}, u.running - {t}, u.next)
  }

  /** The registry pruning of `_cleanup_loop` as written: drop the entry of
      every destination that is no longer cached, whether or not its thread is
      still alive. */
  function PruneWritten(u: Updaters, cached: set<Addr>): Updaters
  {
    Updaters(map d | d in u.registry && d in cached :: u.registry[d], u.running, u.next)
  }

  /** The pruning the comment beside it asks for ("clean invalid thread
      records"): drop the entries whose thread has ended. */
  function PruneDead(u: Updaters): Updaters
  {
    Updaters(map d | d in u.registry && u.registry[d] in u.running :: u.registry[d], u.running, u.next)
  }

  /** What holds under either pruning: registered handles and live threads
      have been handed out, and a registered thread that is still alive
      refreshes the destination it is registered for. */
  predicate Truthful(u: Updaters)
  {
    && (forall d | d in u.registry :: u.registry[d] < u.next &&
          (u.registry[d] in u.running ==> u.running[u.registry[d]] == d))
    && (forall t | t in u.running :: t < u.next)
  }

  /** Every destination of `ds` has a registered updater that is alive. */
  predicate Serviced(u: Updaters, ds: set<Addr>)
  {
    forall d | d in ds :: d in u.registry && u.registry[d] in u.running
  }

  lemma ConsistentIsTruthful(u: Updaters)
    requires Consistent(u)
    ensures Truthful(u)
  {
  }

  /** Scheduling keeps the registry truthful, leaves every serviced
      destination serviced, and services `d`. */
  lemma ScheduleServiced(u: Updaters, d: Addr, ds: set<Addr>)
    requires Truthful(u) && Serviced(u, ds)
    ensures Truthful(Schedule(u, d)) && Serviced(Schedule(u, d), ds + {d})
  {
    var v := Schedule(u, d);
    if !(d in u.registry && u.registry[d] in u.running) {
      assert u.next !in u.running;
      forall e | e in v.registry && v.registry[e] in v.running
        ensures v.running[v.registry[e]] == e
      {
        if e != d {
          assert v.registry[e] == u.registry[e] < u.next;
        }
      }
    }
  }

  /** A thread whose destination is not among `ds` may exit without leaving
      any of `ds` unserviced. */
  lemma ExitServiced(u: Updaters, t: nat, ds: set<Addr>)
    requires Truthful(u) && Serviced(u, ds) && t in u.running && u.running[t] !in ds
    ensures Truthful(Exit(u, t)) && Serviced(Exit(u, t), ds)
  {
    var v := Exit(u, t);
    forall d | d in ds
      ensures d in v.registry && v.registry[d] in v.running
    {
      assert u.running[u.registry[d]] == d;
    }
  }

  /** Either pruning keeps the registry truthful and every cached destination
      serviced. */
  lemma PruneServiced(u: Updaters, cached: set<Addr>)
    requires Truthful(u) && Serviced(u, cached)
    ensures Truthful(PruneDead(u)) && Serviced(PruneDead(u), cached)
    ensures Truthful(PruneWritten(u, cached)) && Serviced(PruneWritten(u, cached), cached)
  {
  }

  lemma ScheduleConsistent(u: Updaters, d: Addr)
    requires Consistent(u)
    ensures Consistent(Schedule(u, d))
    ensures Schedule(u, d).registry.Keys == u.registry.Keys + {d}
    ensures |Refreshers(Schedule(u, d), d)| == 1
  {
    var v := Schedule(u, d);
    if !(d in u.registry && u.registry[d] in u.running) {
      assert d !in u.registry;
      assert u.next !in u.running;
      forall t | t in v.running
        ensures v.running[t] in v.registry && v.registry[v.running[t]] == t
      {
        if t != u.next {
          assert v.running[t] == u.running[t] != d;
        }
      }
    }
    ConsistentMeansUnique(v, d);
  }

  lemma ExitConsistent(u: Updaters, t: nat)
    requires Consistent(u) && t in u.running
    ensures Consistent(Exit(u, t))
    ensures Exit(u, t).registry.Keys == u.registry.Keys - {u.running[t]}
  {
  }

  /** Pruning dead entries keeps the registry consistent and never forgets a
      live thread. */
  lemma PruneDeadConsistent(u: Updaters)
    requires Consistent(u)
    ensures Consistent(PruneDead(u))
    ensures PruneDead(u).registry.Keys == u.registry.Keys
  {
  }

  /** As written, pruning breaks consistency as soon as a live thread's
      destination has left the cache: the thread keeps running unregistered, so
      the next `_schedule_updater` for that destination starts a second one. */
  lemma PruneWrittenOrphans(u: Updaters, cached: set<Addr>, t: nat)
    requires Consistent(u) && t in u.running && u.running[t] !in cached
    ensures !Consistent(PruneWritten(u, cached))
    ensures |Refreshers(Schedule(PruneWritten(u, cached), u.running[t]), u.running[t])| == 2
  {
    var d := u.running[t];
    var p := PruneWritten(u, cached);
    assert d !in p.registry;
    var v := Schedule(p, d);
    assert u.next != t;
    assert Refreshers(v, d) == {t, u.next};
  }

  /** The trace behind it: an updater starts for `d`, the route expires, the
      cleanup prunes the entry, and the route is installed again before the
      old thread wakes up to notice. */
  lemma TwoUpdatersForOneDestination(d: Addr)
    ensures var u := Schedule(PruneWritten(Schedule(NoUpdaters, d), {}), d);
            Refreshers(u, d) == {0, 1}
  {
    var u := Schedule(PruneWritten(Schedule(NoUpdaters, d), {}), d);
    assert u.running == map[0 := d, 1 := d];
  }

  /** The same sequence with the corrected pruning keeps the one live updater. */
  lemma OneUpdaterForOneDestination(d: Addr)
    ensures var u := Schedule(PruneDead(Schedule(NoUpdaters, d)), d);
            Refreshers(u, d) == {0}
  {
    var p := PruneDead(Schedule(NoUpdaters, d));
    assert d in p.registry && p.registry[d] == 0 && p.running == map[0 := d];
  }
}
