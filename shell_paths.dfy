/** The paths of one shell: shortest distances and next hops between all
    satellites over the active inter-satellite links (Floyd–Warshall), and the
    path matrix built from them for satellite pairs, ground station to
    satellite pairs and ground station pairs. Node `S + g` of the path matrix
    is ground station `g`, after the `S` satellites. The distances the source
    keeps as 32-bit floats are whole metres here, with an infinite value. */
module ShellPaths {
  import opened Common
  import opened ShellLinks

  /** A distance in metres, or infinity (no path). */
  datatype Dist = Fin(m: nat) | Inf

  function Plus(a: Dist, b: Dist): Dist
  {
    if a.Fin? && b.Fin? then Fin(a.m + b.m) else Inf
  }

  /** `a > b` on floats with infinity: infinity exceeds every finite value
      and not itself. */
  predicate Greater(a: Dist, b: Dist)
  {
    b.Fin? && (a.Inf? || a.m > b.m)
  }

  predicate AtMost(a: Dist, b: Dist)
  {
    !Greater(a, b)
  }

  /** The initial distance between nodes `i` and `j`: that of the last active
      link of `links` that joins them, either way round, or infinity. */
  function LinkDist(links: seq<Link>, i: int, j: int): Dist
  {
    if |links| == 0 then Inf
    else
      var l := links[|links| - 1];
      if l.active && ((l.node1 == i && l.node2 == j) || (l.node1 == j && l.node2 == i)) then Fin(l.distance)
      else LinkDist(links[..|links| - 1], i, j)
  }

  /** A link joins `i` and `j` exactly when it joins `j` and `i`. */
  lemma {:induction false} LinkDistSymmetric(links: seq<Link>, i: int, j: int)
    ensures LinkDist(links, i, j) == LinkDist(links, j, i)
  {
    if |links| > 0 {
      LinkDistSymmetric(links[..|links| - 1], i, j);
    }
  }

  /** A finite initial distance is that of an active link joining the two
      nodes. */
  lemma {:induction false} LinkDistIsLink(links: seq<Link>, i: int, j: int)
    requires LinkDist(links, i, j).Fin?
    ensures exists x | 0 <= x < |links| ::
              links[x].active && links[x].distance == LinkDist(links, i, j).m &&
              ((links[x].node1 == i && links[x].node2 == j) || (links[x].node1 == j && links[x].node2 == i))
  {
    var l := links[|links| - 1];
    if !(l.active && ((l.node1 == i && l.node2 == j) || (l.node1 == j && l.node2 == i))) {
      var rest := links[..|links| - 1];
      LinkDistIsLink(rest, i, j);
      var x :| 0 <= x < |rest| && rest[x].active && rest[x].distance == LinkDist(rest, i, j).m &&
               ((rest[x].node1 == i && rest[x].node2 == j) || (rest[x].node1 == j && rest[x].node2 == i));
      assert links[x] == rest[x];
    }
  }

  /** The distance and next-hop matrices before Floyd–Warshall runs. */
  predicate Initial(dist: array2<Dist>, next: array2<int>, links: seq<Link>, n: nat)
    reads dist, next
    requires dist.Length0 == n == dist.Length1 && next.Length0 == n == next.Length1
  {
    forall i, j | 0 <= i < n && 0 <= j < n ::
      dist[i, j] == (if i == j then Fin(0) else LinkDist(links, i, j)) &&
      next[i, j] == (if i == j then i else if LinkDist(links, i, j).Fin? then j else -1)
  }

  /** The first part of `_numba_update_paths`: every distance infinite and
      every next hop -1, then each active link of the first `count` of the
      link array sets the distance both ways and makes each endpoint the
      other's next hop, then every node is at distance 0 from itself and its
      own next hop. */
  method InitDistances(links: array<Link>, count: nat, n: nat) returns (dist: array2<Dist>, next: array2<int>)
    requires count <= links.Length
    requires forall x | 0 <= x < count :: 0 <= links[x].node1 < n && 0 <= links[x].node2 < n
    ensures fresh(dist) && fresh(next)
    ensures dist.Length0 == n == dist.Length1 && next.Length0 == n == next.Length1
    ensures Initial(dist, next, links[..count], n)
  {
    dist := new Dist[n, n];
    next := new int[n, n];
    for i := 0 to n
      invariant forall a, b | 0 <= a < i && 0 <= b < n :: dist[a, b] == Inf && next[a, b] == -1
    {
      for j := 0 to n
        invariant forall a, b | 0 <= a < i && 0 <= b < n :: dist[a, b] == Inf && next[a, b] == -1
        invariant forall b | 0 <= b < j :: dist[i, b] == Inf && next[i, b] == -1
      {
        dist[i, j] := Inf;
        next[i, j] := -1;
      }
    }
    for x := 0 to count
      invariant forall a, b | 0 <= a < n && 0 <= b < n ::
                  dist[a, b] == LinkDist(links[..x], a, b) &&
                  next[a, b] == (if LinkDist(links[..x], a, b).Fin? then b else -1)
    {
      assert links[..x + 1][..x] == links[..x];
      var link := links[x];
      if !link.active {
        continue;
      }
      dist[link.node1, link.node2] := Fin(link.distance);
      dist[link.node2, link.node1] := Fin(link.distance);
      next[link.node1, link.node2] := link.node2;
      next[link.node2, link.node1] := link.node1;
    }
    for i := 0 to n
      invariant forall a, b | 0 <= a < n && 0 <= b < n ::
                  dist[a, b] == (if a == b && a < i then Fin(0) else LinkDist(links[..count], a, b)) &&
                  next[a, b] == (if a == b && a < i then a
                                 else if LinkDist(links[..count], a, b).Fin? then b else -1)
    {
      dist[i, i] := Fin(0);
      next[i, i] := i;
    }
  }

  /** What Floyd–Warshall keeps: distances are symmetric, every node is at
      distance 0 from itself and is its own next hop, a next hop is -1
      exactly where the distance is infinite, and every other next hop is a
      node. */
  predicate Inv(dist: array2<Dist>, next: array2<int>, n: nat)
    reads dist, next
  {
    dist.Length0 == n == dist.Length1 && next.Length0 == n == next.Length1 &&
    (forall i, j | 0 <= i < n && 0 <= j < n :: dist[i, j] == dist[j, i]) &&
    (forall i | 0 <= i < n :: dist[i, i] == Fin(0) && next[i, i] == i) &&
    (forall i, j | 0 <= i < n && 0 <= j < n :: (next[i, j] == -1 <==> dist[i, j] == Inf)) &&
    (forall i, j | 0 <= i < n && 0 <= j < n :: -1 <= next[i, j] < n)
  }

  /** The initial matrices already have this shape. */
  lemma InitialInv(dist: array2<Dist>, next: array2<int>, links: seq<Link>, n: nat)
    requires dist.Length0 == n == dist.Length1 && next.Length0 == n == next.Length1
    requires Initial(dist, next, links, n)
    ensures Inv(dist, next, n)
  {
    forall i, j | 0 <= i < n && 0 <= j < n
      ensures dist[i, j] == dist[j, i]
    {
      LinkDistSymmetric(links, i, j);
    }
  }

  /** The Floyd–Warshall loop of `_numba_update_paths`, run on the upper
      triangle and mirrored: for every intermediate node `k` and pair `i < j`,
      a shorter way through `k` replaces the distance both ways and takes the
      next hops towards `k`. It keeps the shape above and never lengthens a
      distance. */
  method FloydWarshall(dist: array2<Dist>, next: array2<int>, n: nat)
    requires Inv(dist, next, n)
    modifies dist, next
    ensures Inv(dist, next, n)
    ensures forall i, j | 0 <= i < n && 0 <= j < n :: AtMost(dist[i, j], old(dist[i, j]))
  {
    for k := 0 to n
      invariant Inv(dist, next, n)
      invariant forall a, b | 0 <= a < n && 0 <= b < n :: AtMost(dist[a, b], old(dist[a, b]))
    {
      for i := 0 to n
        invariant Inv(dist, next, n)
        invariant forall a, b | 0 <= a < n && 0 <= b < n :: AtMost(dist[a, b], old(dist[a, b]))
      {
        for j := i + 1 to n
          invariant Inv(dist, next, n)
          invariant forall a, b | 0 <= a < n && 0 <= b < n :: AtMost(dist[a, b], old(dist[a, b]))
        {
          Relax(dist, next, n, i, j, k);
        }
      }
    }
  }

  /** One step of the loop, for the pair `i < j` and intermediate node `k`:
      when the way through `k` is shorter, it becomes the distance both ways,
      and the next hops become those towards `k`; nothing else changes. */
  method Relax(dist: array2<Dist>, next: array2<int>, n: nat, i: nat, j: nat, k: nat)
    requires Inv(dist, next, n) && i < j < n && k < n
    modifies dist, next
    ensures Inv(dist, next, n)
    ensures forall a, b | 0 <= a < n && 0 <= b < n :: AtMost(dist[a, b], old(dist[a, b]))
    ensures var via := Plus(old(dist[i, k]), old(dist[k, j]));
            if Greater(old(dist[i, j]), via) then
              dist[i, j] == via && dist[j, i] == via &&
              next[i, j] == old(next[i, k]) && next[j, i] == old(next[j, k])
            else
              dist[i, j] == old(dist[i, j]) && dist[j, i] == old(dist[j, i]) &&
              next[i, j] == old(next[i, j]) && next[j, i] == old(next[j, i])
    ensures forall a, b | 0 <= a < n && 0 <= b < n && !(a == i && b == j) && !(a == j && b == i) ::
              dist[a, b] == old(dist[a, b]) && next[a, b] == old(next[a, b])
  {
    var dik := dist[i, k];
    var dkj := dist[k, j];
    if Greater(dist[i, j], Plus(dik, dkj)) {
      var nik := next[i, k];
      var njk := next[j, k];
      assert nik != -1 && njk != -1 by {
        assert dist[j, k] == dkj;
      }
      dist[i, j] := Plus(dik, dkj);
      dist[j, i] := Plus(dik, dkj);
      next[i, j] := nik;
      next[j, i] := njk;
    }
  }

  /** An entry of the path matrix (`PATH_DTYPE`). */
  datatype Path = Path(active: bool, nextHop: int, prevHop: int, bandwidth: nat, delay: nat)

  /** Delay in microseconds of a distance in metres, at 3.336e-9 s/m,
      truncated; an infinite distance has delay 0. */
  function DelayUs(d: Dist): nat
  {
    if d.Fin? then d.m * 3336 / 1_000_000 else 0
  }

  /** The path matrix entry of satellites `i < j`: active when they are
      connected, the next hops from `i` towards `j` and from `j` towards `i`,
      the inter-satellite bandwidth and the delay of the distance. */
  function SatPath(dist: array2<Dist>, next: array2<int>, i: nat, j: nat, isl: nat): Path
    reads dist, next
    requires i < dist.Length0 && j < dist.Length1 && i < next.Length0 && j < next.Length1
    requires j < next.Length0 && i < next.Length1
  {
    Path(dist[i, j] != Inf, next[i, j], next[j, i], isl, DelayUs(dist[i, j]))
  }

  /** A satellite pair is active exactly when its distance is finite; an
      active pair has real next hops both ways and an inactive one has -1
      both ways. */
  lemma SatPathHops(dist: array2<Dist>, next: array2<int>, n: nat, i: nat, j: nat, isl: nat)
    requires Inv(dist, next, n) && i < j < n
    ensures var p := SatPath(dist, next, i, j, isl);
            (p.active <==> dist[i, j].Fin?) &&
            (p.active ==> 0 <= p.nextHop < n && 0 <= p.prevHop < n) &&
            (!p.active ==> p.nextHop == -1 && p.prevHop == -1)
  {
    assert dist[j, i] == dist[i, j];
  }

  /** The satellite part of the path matrix: entries `[i, j]` with
      `i < j < n` are set, every other entry is left as it was. */
  method FillSatPaths(pm: array2<Path>, dist: array2<Dist>, next: array2<int>, n: nat, isl: nat)
    requires Inv(dist, next, n) && n <= pm.Length0 && n <= pm.Length1
    requires HopsInRange(pm, pm.Length0)
    modifies pm
    ensures HopsInRange(pm, pm.Length0)
    ensures forall i, j | 0 <= i < j < n :: pm[i, j] == SatPath(dist, next, i, j, isl)
    ensures forall i, j | 0 <= i < pm.Length0 && 0 <= j < pm.Length1 && !(i < j < n) ::
              pm[i, j] == old(pm[i, j])
  {
    for i := 0 to n
      invariant HopsInRange(pm, pm.Length0)
      invariant forall a, b | 0 <= a < i && a < b < n :: pm[a, b] == SatPath(dist, next, a, b, isl)
      invariant forall a, b | 0 <= a < pm.Length0 && 0 <= b < pm.Length1 && !(a < i && a < b < n) ::
                  pm[a, b] == old(pm[a, b])
    {
      for j := i + 1 to n
        invariant HopsInRange(pm, pm.Length0)
        invariant forall a, b | 0 <= a < i && a < b < n :: pm[a, b] == SatPath(dist, next, a, b, isl)
        invariant forall b | i < b < j :: pm[i, b] == SatPath(dist, next, i, b, isl)
        invariant forall a, b | 0 <= a < pm.Length0 && 0 <= b < pm.Length1 &&
                                !(a < i && a < b < n) && !(a == i && i < b < j) ::
                    pm[a, b] == old(pm[a, b])
      {
        var active := dist[i, j] != Inf;
        var d := DelayUs(dist[i, j]);
        pm[i, j] := Path(active, next[i, j], next[j, i], isl, d);
      }
    }
  }

  /** The positions in `gl` of the uplinks of the station with id `id`, in
      order. */
  function StationLinks(gl: seq<GstLink>, id: int): (xs: seq<nat>)
    ensures forall t | 0 <= t < |xs| :: xs[t] < |gl| && gl[xs[t]].gst == id
    ensures forall t, u | 0 <= t < u < |xs| :: xs[t] < xs[u]
    ensures forall x | 0 <= x < |gl| && gl[x].gst == id :: x in xs
  {
    if |gl| == 0 then []
    else
      var xs := StationLinks(gl[..|gl| - 1], id);
      xs + if gl[|gl| - 1].gst == id then [|gl| - 1] else []
  }

  /** Each station's uplink positions among `gl`, station by station. */
  function StationLists(gl: seq<GstLink>, gsts: seq<GroundStation>): seq<seq<nat>>
  {
    seq(|gsts|, g requires 0 <= g < |gsts| => StationLinks(gl, gsts[g].id))
  }

  /** The per-station lists of uplink positions (`g_valid_links`). */
  method CollectStationLinks(gl: seq<GstLink>, gsts: seq<GroundStation>) returns (valid: seq<seq<nat>>)
    ensures valid == StationLists(gl, gsts)
  {
    valid := [];
    for g := 0 to |gsts|
      invariant |valid| == g
      invariant forall h | 0 <= h < g :: valid[h] == StationLinks(gl, gsts[h].id)
    {
      var xs := CollectUplinks(gl, gsts[g].id);
      valid := valid + [xs];
    }
    assert forall h | 0 <= h < |gsts| :: valid[h] == StationLists(gl, gsts)[h];
  }

  /** The uplink positions of one station: the scan over the uplinks that
      keeps the positions whose station is `id`. */
  method CollectUplinks(gl: seq<GstLink>, id: int) returns (xs: seq<nat>)
    ensures xs == StationLinks(gl, id)
  {
    xs := [];
    for x := 0 to |gl|
      invariant xs == StationLinks(gl[..x], id)
    {
      assert gl[..x + 1][..x] == gl[..x];
      assert StationLinks(gl[..x + 1], id) ==
             StationLinks(gl[..x], id) + if gl[x].gst == id then [x] else [];
      if gl[x].gst == id {
        xs := xs + [x];
      }
    }
    assert gl[..|gl|] == gl;
  }

  /** Every uplink leads to one of the `n` satellites. */
  predicate UplinksFit(gl: seq<GstLink>, n: nat)
  {
    forall x | 0 <= x < |gl| :: 0 <= gl[x].sat < n
  }

  /** Every uplink position of `xs` is in `gl` and leads to a satellite of
      the distance matrix. */
  predicate LinksFit(gl: seq<GstLink>, xs: seq<nat>, n: nat)
  {
    forall t | 0 <= t < |xs| :: xs[t] < |gl| && 0 <= gl[xs[t]].sat < n
  }

  /** The uplink scan for satellite `s1` over the station's uplinks
      `xs[t..]`, from the best so far `(minD, minX)`: an uplink to `s1` itself
      ends the scan and is taken; an uplink whose satellite `s1` cannot reach
      is skipped; otherwise the way through it is taken when strictly shorter
      than the best so far. */
  function UplinkFrom(gl: seq<GstLink>, xs: seq<nat>, dist: array2<Dist>, s1: nat, t: nat,
                      minD: Dist, minX: int): (Dist, int)
    reads dist
    requires t <= |xs| && LinksFit(gl, xs, dist.Length1) && s1 < dist.Length0
    decreases |xs| - t
  {
    if t == |xs| then (minD, minX)
    else
      var x := xs[t];
      var s2 := gl[x].sat;
      if s1 == s2 then (Fin(gl[x].distance), x)
      else
        var d := dist[s1, s2];
        if d == Inf then UplinkFrom(gl, xs, dist, s1, t + 1, minD, minX)
        else
          var pd := Plus(d, Fin(gl[x].distance));
          if !Greater(minD, pd) then UplinkFrom(gl, xs, dist, s1, t + 1, minD, minX)
          else UplinkFrom(gl, xs, dist, s1, t + 1, pd, x)
  }

  /** The distance and uplink position the scan settles on for satellite
      `s1`, -1 when there is none. */
  function Uplink(gl: seq<GstLink>, xs: seq<nat>, dist: array2<Dist>, s1: nat): (Dist, int)
    reads dist
    requires LinksFit(gl, xs, dist.Length1) && s1 < dist.Length0
  {
    UplinkFrom(gl, xs, dist, s1, 0, Inf, -1)
  }

  /** The path matrix entry of station node `i` and satellite `s1`: inactive
      (the rest left as it was) without an uplink; otherwise the uplink
      satellite is the station's next hop, the satellite's next hop is the
      station itself when it is the uplink satellite and otherwise its next
      hop towards the uplink satellite, the bandwidth is the smaller of the
      station's and the inter-satellite one, and the delay is that of the
      distance through the uplink. */
  function GstSatPath(before: Path, gl: seq<GstLink>, xs: seq<nat>, dist: array2<Dist>, next: array2<int>,
                      s1: nat, i: nat, gstBandwidth: nat, isl: nat): Path
    reads dist, next
    requires LinksFit(gl, xs, dist.Length1) && s1 < dist.Length0
    requires next.Length0 == dist.Length0 && next.Length1 == dist.Length1
  {
    var (minD, minX) := Uplink(gl, xs, dist, s1);
    if minX == -1 || !(0 <= minX < |gl|) then before.(active := false)
    else
      var up := gl[minX].sat;
      var prev := if up == s1 then i else if 0 <= up < next.Length1 then next[s1, up] else -1;
      Path(true, up, prev, Min(gstBandwidth, isl), DelayUs(minD))
  }

  function Min(a: nat, b: nat): nat
  {
    if a <= b then a else b
  }

  /** What the scan keeps from position `t` on: the best so far is the
      mark, or a way through one of the uplinks already passed. */
  predicate ScanState(gl: seq<GstLink>, xs: seq<nat>, dist: array2<Dist>, s1: nat, t: nat,
                      minD: Dist, minX: int)
    reads dist
    requires t <= |xs| && LinksFit(gl, xs, dist.Length1) && s1 < dist.Length0
  {
    (minX == -1 && minD == Inf) ||
    (exists u | 0 <= u < t :: xs[u] == minX && minD == Plus(dist[s1, gl[xs[u]].sat], Fin(gl[xs[u]].distance)) &&
                              minD.Fin?)
  }

  /** The scan takes the first uplink to `s1` itself when the station has one. */
  lemma {:induction false} DirectUplinkWins(gl: seq<GstLink>, xs: seq<nat>, dist: array2<Dist>, s1: nat,
                                            t: nat, t0: nat, minD: Dist, minX: int)
    requires LinksFit(gl, xs, dist.Length1) && s1 < dist.Length0
    requires t <= t0 < |xs| && gl[xs[t0]].sat == s1
    requires forall u | t <= u < t0 :: gl[xs[u]].sat != s1
    ensures UplinkFrom(gl, xs, dist, s1, t, minD, minX) == (Fin(gl[xs[t0]].distance), xs[t0])
    decreases t0 - t
  {
    if t < t0 {
      var x := xs[t];
      var d := dist[s1, gl[x].sat];
      var pd := Plus(d, Fin(gl[x].distance));
      DirectUplinkWins(gl, xs, dist, s1, t + 1, t0, minD, minX);
      DirectUplinkWins(gl, xs, dist, s1, t + 1, t0, pd, x);
    }
  }

  /** Without an uplink to `s1` itself, the scan finds no uplink exactly when
      `s1` reaches none of the uplink satellites; when it finds one, it is a
      station uplink and the distance through it is the shortest through any
      of them. */
  lemma {:induction false} UplinkShortest(gl: seq<GstLink>, xs: seq<nat>, dist: array2<Dist>, s1: nat,
                                          t: nat, minD: Dist, minX: int)
    requires LinksFit(gl, xs, dist.Length1) && s1 < dist.Length0 && t <= |xs|
    requires forall u | 0 <= u < |xs| :: gl[xs[u]].sat != s1
    requires ScanState(gl, xs, dist, s1, t, minD, minX)
    requires forall u | 0 <= u < t :: AtMost(minD, Plus(dist[s1, gl[xs[u]].sat], Fin(gl[xs[u]].distance)))
    ensures var (d, x) := UplinkFrom(gl, xs, dist, s1, t, minD, minX);
            ScanState(gl, xs, dist, s1, |xs|, d, x) &&
            (x == -1 <==> (minX == -1 && forall u | t <= u < |xs| :: dist[s1, gl[xs[u]].sat] == Inf)) &&
            (forall u | 0 <= u < |xs| :: AtMost(d, Plus(dist[s1, gl[xs[u]].sat], Fin(gl[xs[u]].distance))))
    decreases |xs| - t
  {
    if t < |xs| {
      var x := xs[t];
      var d := dist[s1, gl[x].sat];
      var pd := Plus(d, Fin(gl[x].distance));
      if d != Inf && Greater(minD, pd) {
        forall u | 0 <= u < t + 1
          ensures AtMost(pd, Plus(dist[s1, gl[xs[u]].sat], Fin(gl[xs[u]].distance)))
        {
        }
        UplinkShortest(gl, xs, dist, s1, t + 1, pd, x);
      } else {
        assert ScanState(gl, xs, dist, s1, t + 1, minD, minX);
        UplinkShortest(gl, xs, dist, s1, t + 1, minD, minX);
      }
    }
  }

  /** A satellite with a direct uplink to the station gets that uplink: the
      entry is active, the station's next hop is the satellite and the
      satellite's is the station node itself. */
  lemma DirectUplinkEntry(before: Path, gl: seq<GstLink>, xs: seq<nat>, dist: array2<Dist>, next: array2<int>,
                          s1: nat, i: nat, gstBandwidth: nat, isl: nat, t0: nat)
    requires LinksFit(gl, xs, dist.Length1) && s1 < dist.Length0
    requires next.Length0 == dist.Length0 && next.Length1 == dist.Length1
    requires t0 < |xs| && gl[xs[t0]].sat == s1 && forall u | 0 <= u < t0 :: gl[xs[u]].sat != s1
    ensures var p := GstSatPath(before, gl, xs, dist, next, s1, i, gstBandwidth, isl);
            p.active && p.nextHop == s1 && p.prevHop == i &&
            p.delay == DelayUs(Fin(gl[xs[t0]].distance)) && p.bandwidth == Min(gstBandwidth, isl)
  {
    DirectUplinkWins(gl, xs, dist, s1, 0, t0, Inf, -1);
  }

  /** Without a direct uplink, the entry is inactive exactly when the
      satellite reaches none of the station's uplink satellites, and an
      active entry goes through the uplink with the shortest distance. */
  lemma RelayedUplinkEntry(before: Path, gl: seq<GstLink>, xs: seq<nat>, dist: array2<Dist>, next: array2<int>,
                           s1: nat, i: nat, gstBandwidth: nat, isl: nat)
    requires LinksFit(gl, xs, dist.Length1) && s1 < dist.Length0
    requires next.Length0 == dist.Length0 && next.Length1 == dist.Length1
    requires forall u | 0 <= u < |xs| :: gl[xs[u]].sat != s1
    ensures var p := GstSatPath(before, gl, xs, dist, next, s1, i, gstBandwidth, isl);
            (!p.active <==> forall u | 0 <= u < |xs| :: dist[s1, gl[xs[u]].sat] == Inf) &&
            (!p.active ==> p == before.(active := false))
    ensures var p := GstSatPath(before, gl, xs, dist, next, s1, i, gstBandwidth, isl);
            p.active ==>
              exists u | 0 <= u < |xs| ::
                p.nextHop == gl[xs[u]].sat && p.prevHop == next[s1, gl[xs[u]].sat] &&
                dist[s1, gl[xs[u]].sat].Fin? &&
                p.delay == DelayUs(Plus(dist[s1, gl[xs[u]].sat], Fin(gl[xs[u]].distance))) &&
                forall v | 0 <= v < |xs| ::
                  AtMost(Plus(dist[s1, gl[xs[u]].sat], Fin(gl[xs[u]].distance)),
                         Plus(dist[s1, gl[xs[v]].sat], Fin(gl[xs[v]].distance)))
  {
    UplinkShortest(gl, xs, dist, s1, 0, Inf, -1);
  }

  /** The uplink the scan settles on is the mark or one of the station's. */
  lemma {:induction false} UplinkFromListed(gl: seq<GstLink>, xs: seq<nat>, dist: array2<Dist>, s1: nat, t: nat,
                                            minD: Dist, minX: int)
    requires t <= |xs| && LinksFit(gl, xs, dist.Length1) && s1 < dist.Length0
    requires minX == -1 || minX in xs
    ensures UplinkFrom(gl, xs, dist, s1, t, minD, minX).1 == -1 || UplinkFrom(gl, xs, dist, s1, t, minD, minX).1 in xs
    decreases |xs| - t
  {
    if t < |xs| {
      var x := xs[t];
      var pd := Plus(dist[s1, gl[x].sat], Fin(gl[x].distance));
      if s1 != gl[x].sat {
        if dist[s1, gl[x].sat] != Inf && Greater(minD, pd) {
          UplinkFromListed(gl, xs, dist, s1, t + 1, pd, x);
        } else {
          UplinkFromListed(gl, xs, dist, s1, t + 1, minD, minX);
        }
      }
    }
  }

  /** Every hop of every entry of `pm` is a node below `n`, or -1. */
  predicate HopsInRange(pm: array2<Path>, n: nat)
    reads pm
  {
    forall a, b | 0 <= a < pm.Length0 && 0 <= b < pm.Length1 ::
      -1 <= pm[a, b].nextHop < n && -1 <= pm[a, b].prevHop < n
  }

  /** An active station-to-satellite entry leads to one of the station's
      uplink satellites, and its satellite's hop is the station node or a
      next hop of the distance matrix; an inactive one keeps its hops. */
  lemma GstSatPathHops(before: Path, gl: seq<GstLink>, xs: seq<nat>, dist: array2<Dist>, next: array2<int>,
                       n: nat, s1: nat, i: nat, gstBandwidth: nat, isl: nat)
    requires Inv(dist, next, n) && LinksFit(gl, xs, n) && s1 < n
    ensures var p := GstSatPath(before, gl, xs, dist, next, s1, i, gstBandwidth, isl);
            (p.active ==> (exists t | 0 <= t < |xs| :: p.nextHop == gl[xs[t]].sat) &&
                          (p.prevHop == i || -1 <= p.prevHop < n)) &&
            (!p.active ==> p.nextHop == before.nextHop && p.prevHop == before.prevHop)
  {
    UplinkFromListed(gl, xs, dist, s1, 0, Inf, -1);
  }

  /** An active station-pair entry goes from an uplink satellite of the one
      station to an uplink satellite of the other; an inactive one keeps its
      hops. */
  lemma GstGstPathHops(before: Path, gl: seq<GstLink>, xs1: seq<nat>, xs2: seq<nat>, dist: array2<Dist>,
                       bw1: nat, bw2: nat, isl: nat)
    requires LinksFit(gl, xs1, dist.Length0) && LinksFit(gl, xs2, dist.Length1)
    ensures var p := GstGstPath(before, gl, xs1, xs2, dist, bw1, bw2, isl);
            (p.active ==> (exists u1 | 0 <= u1 < |xs1| :: p.nextHop == gl[xs1[u1]].sat) &&
                          (exists u2 | 0 <= u2 < |xs2| :: p.prevHop == gl[xs2[u2]].sat)) &&
            (!p.active ==> p.nextHop == before.nextHop && p.prevHop == before.prevHop)
  {
    PairKeepsState(gl, xs1, xs2, dist, 0, 0, Inf, -1, -1);
  }

  /** The inner loop of the station-to-satellite part: for station node
      `i` with uplinks `xs`, entry `[i, s1]` of every satellite `s1` becomes
      `GstSatPath` of what it held; every other entry is left as it was. */
  method FillStationRow(pm: array2<Path>, dist: array2<Dist>, next: array2<int>, n: nat, gl: seq<GstLink>,
                        xs: seq<nat>, i: nat, gstBandwidth: nat, isl: nat)
    requires Inv(dist, next, n) && n <= i < pm.Length0 && n <= pm.Length1 && LinksFit(gl, xs, n)
    requires HopsInRange(pm, pm.Length0)
    modifies pm
    ensures HopsInRange(pm, pm.Length0)
    ensures forall s | 0 <= s < n :: pm[i, s] == GstSatPath(old(pm[i, s]), gl, xs, dist, next, s, i, gstBandwidth, isl)
    ensures forall a, b | 0 <= a < pm.Length0 && 0 <= b < pm.Length1 && !(a == i && b < n) ::
              pm[a, b] == old(pm[a, b])
  {
    for s1 := 0 to n
      invariant HopsInRange(pm, pm.Length0)
      invariant forall s | 0 <= s < s1 ::
                  pm[i, s] == GstSatPath(old(pm[i, s]), gl, xs, dist, next, s, i, gstBandwidth, isl)
      invariant forall a, b | 0 <= a < pm.Length0 && 0 <= b < pm.Length1 && !(a == i && b < s1) ::
                  pm[a, b] == old(pm[a, b])
    {
      var p := StationEntry(pm[i, s1], gl, xs, dist, next, n, s1, i, gstBandwidth, isl, pm.Length0);
      pm[i, s1] := p;
    }
  }

  /** One station-to-satellite entry: the scan over the station's uplinks
      for satellite `s1`, then the entry it yields from what the entry held
      (`before`); hops within `m` nodes stay within them. */
  method StationEntry(before: Path, gl: seq<GstLink>, xs: seq<nat>, dist: array2<Dist>, next: array2<int>,
                      n: nat, s1: nat, i: nat, gstBandwidth: nat, isl: nat, m: nat) returns (p: Path)
    requires Inv(dist, next, n) && LinksFit(gl, xs, n) && s1 < n && n <= m && i < m
    ensures p == GstSatPath(before, gl, xs, dist, next, s1, i, gstBandwidth, isl)
    ensures -1 <= before.nextHop < m && -1 <= before.prevHop < m ==> -1 <= p.nextHop < m && -1 <= p.prevHop < m
  {
    GstSatPathHops(before, gl, xs, dist, next, n, s1, i, gstBandwidth, isl);
    var minD, minX := ScanUplinks(gl, xs, dist, s1);
    if minX == -1 {
      return before.(active := false);
    }
    var up := gl[minX].sat;
    var prev := if up == s1 then i else next[s1, up];
    p := Path(true, up, prev, Min(gstBandwidth, isl), DelayUs(minD));
  }

  /** The station-to-satellite part of the path matrix: for station node
      `a = n + g` and satellite `s1`, entry `[a, s1]` becomes `GstSatPath` of
      what it held, with the station's uplinks `valid[g]`; every other entry
      is left as it was. */
  method FillGstSatPaths(pm: array2<Path>, dist: array2<Dist>, next: array2<int>, n: nat, gl: seq<GstLink>,
                         gsts: seq<GroundStation>, valid: seq<seq<nat>>, isl: nat)
    requires Inv(dist, next, n) && pm.Length0 == n + |gsts| && n <= pm.Length1
    requires |valid| == |gsts| && forall g | 0 <= g < |gsts| :: LinksFit(gl, valid[g], n)
    requires HopsInRange(pm, pm.Length0)
    modifies pm
    ensures HopsInRange(pm, pm.Length0)
    ensures forall a, s1 | n <= a < n + |gsts| && 0 <= s1 < n ::
              pm[a, s1] == GstSatPath(old(pm[a, s1]), gl, valid[a - n], dist, next, s1, a,
                                      gsts[a - n].bandwidth, isl)
    ensures forall a, b | 0 <= a < pm.Length0 && 0 <= b < pm.Length1 && !(n <= a && b < n) ::
              pm[a, b] == old(pm[a, b])
  {
    for g := 0 to |gsts|
      invariant HopsInRange(pm, pm.Length0)
      invariant forall a, s1 | n <= a < n + g && 0 <= s1 < n ::
                  pm[a, s1] == GstSatPath(old(pm[a, s1]), gl, valid[a - n], dist, next, s1, a,
                                          gsts[a - n].bandwidth, isl)
      invariant forall a, b | 0 <= a < pm.Length0 && 0 <= b < pm.Length1 && !(n <= a < n + g && b < n) ::
                  pm[a, b] == old(pm[a, b])
    {
      FillStationRow(pm, dist, next, n, gl, valid[g], n + g, gsts[g].bandwidth, isl);
    }
  }

  /** The scan loop over one station's uplinks for satellite `s1`. */
  method ScanUplinks(gl: seq<GstLink>, xs: seq<nat>, dist: array2<Dist>, s1: nat) returns (minD: Dist, minX: int)
    requires LinksFit(gl, xs, dist.Length1) && s1 < dist.Length0
    ensures (minD, minX) == Uplink(gl, xs, dist, s1)
    ensures minX == -1 || (0 <= minX < |gl| && exists t | 0 <= t < |xs| :: xs[t] == minX)
  {
    minD, minX := Inf, -1;
    for t := 0 to |xs|
      invariant UplinkFrom(gl, xs, dist, s1, t, minD, minX) == Uplink(gl, xs, dist, s1)
      invariant minX == -1 || (0 <= minX < |gl| && exists u | 0 <= u < t :: xs[u] == minX)
    {
      var x := xs[t];
      var s2 := gl[x].sat;
      if s1 == s2 {
        minD, minX := Fin(gl[x].distance), x;
        return;
      }
      var d := dist[s1, s2];
      if d == Inf {
        continue;
      }
      var pathDist := Plus(d, Fin(gl[x].distance));
      if !Greater(minD, pathDist) {
        continue;
      }
      minD, minX := pathDist, x;
    }
  }

  /** The scan over pairs of uplinks of two stations, from the pair
      `(xs1[t1], xs2[t2])` on in row order, keeping the best so far: a pair
      whose satellites cannot reach each other is skipped, otherwise the way
      through it is taken when strictly shorter than the best so far. */
  function PairFrom(gl: seq<GstLink>, xs1: seq<nat>, xs2: seq<nat>, dist: array2<Dist>, t1: nat, t2: nat,
                    minD: Dist, minX1: int, minX2: int): (Dist, int, int)
    reads dist
    requires t1 <= |xs1| && t2 <= |xs2|
    requires LinksFit(gl, xs1, dist.Length0) && LinksFit(gl, xs2, dist.Length1)
    decreases |xs1| - t1, |xs2| - t2
  {
    if t1 == |xs1| then (minD, minX1, minX2)
    else if t2 == |xs2| then PairFrom(gl, xs1, xs2, dist, t1 + 1, 0, minD, minX1, minX2)
    else
      var x1, x2 := xs1[t1], xs2[t2];
      var d := dist[gl[x1].sat, gl[x2].sat];
      if d == Inf then PairFrom(gl, xs1, xs2, dist, t1, t2 + 1, minD, minX1, minX2)
      else
        var pd := Plus(Plus(d, Fin(gl[x1].distance)), Fin(gl[x2].distance));
        if !Greater(minD, pd) then PairFrom(gl, xs1, xs2, dist, t1, t2 + 1, minD, minX1, minX2)
        else PairFrom(gl, xs1, xs2, dist, t1, t2 + 1, pd, x1, x2)
  }

  /** The distance of the way between two stations through uplinks `x1` and
      `x2`. */
  function PairDist(gl: seq<GstLink>, dist: array2<Dist>, x1: nat, x2: nat): Dist
    reads dist
    requires x1 < |gl| && x2 < |gl|
    requires 0 <= gl[x1].sat < dist.Length0 && 0 <= gl[x2].sat < dist.Length1
  {
    Plus(Plus(dist[gl[x1].sat, gl[x2].sat], Fin(gl[x1].distance)), Fin(gl[x2].distance))
  }

  /** The path matrix entry of station nodes `i < j`: inactive (the rest left
      as it was) when no pair of their uplink satellites is connected;
      otherwise the first station's uplink satellite is its next hop, the
      second's is the previous hop, the bandwidth is the smallest of both
      stations' and the inter-satellite one, and the delay is that of the way
      through the two uplinks. */
  function GstGstPath(before: Path, gl: seq<GstLink>, xs1: seq<nat>, xs2: seq<nat>, dist: array2<Dist>,
                      bw1: nat, bw2: nat, isl: nat): Path
    reads dist
    requires LinksFit(gl, xs1, dist.Length0) && LinksFit(gl, xs2, dist.Length1)
  {
    var (minD, minX1, minX2) := PairFrom(gl, xs1, xs2, dist, 0, 0, Inf, -1, -1);
    if minX1 == -1 || !(0 <= minX1 < |gl|) || !(0 <= minX2 < |gl|) then before.(active := false)
    else Path(true, gl[minX1].sat, gl[minX2].sat, Min(Min(bw1, bw2), isl), DelayUs(minD))
  }

  /** What the pair scan keeps: the mark, or the way through a pair already
      passed (row order), whose satellites are connected. */
  predicate PairState(gl: seq<GstLink>, xs1: seq<nat>, xs2: seq<nat>, dist: array2<Dist>, t1: nat, t2: nat,
                      minD: Dist, minX1: int, minX2: int)
    reads dist
    requires t1 <= |xs1| && t2 <= |xs2|
    requires LinksFit(gl, xs1, dist.Length0) && LinksFit(gl, xs2, dist.Length1)
  {
    (minX1 == -1 && minD == Inf) ||
    (exists u1, u2 | 0 <= u1 < |xs1| && 0 <= u2 < |xs2| && (u1 < t1 || (u1 == t1 && u2 < t2)) ::
       xs1[u1] == minX1 && xs2[u2] == minX2 && dist[gl[minX1].sat, gl[minX2].sat].Fin? &&
       minD == PairDist(gl, dist, xs1[u1], xs2[u2]))
  }

  /** Pairs passed before `(t1, t2)` in row order. */
  predicate PairBefore(u1: nat, u2: nat, t1: nat, t2: nat)
  {
    u1 < t1 || (u1 == t1 && u2 < t2)
  }

  /** The pair the scan ends with is the mark or a connected pair of the
      stations' uplinks, with the distance of the way through it. */
  lemma {:induction false} PairKeepsState(gl: seq<GstLink>, xs1: seq<nat>, xs2: seq<nat>, dist: array2<Dist>,
                                          t1: nat, t2: nat, minD: Dist, minX1: int, minX2: int)
    requires t1 <= |xs1| && t2 <= |xs2|
    requires LinksFit(gl, xs1, dist.Length0) && LinksFit(gl, xs2, dist.Length1)
    requires PairState(gl, xs1, xs2, dist, t1, t2, minD, minX1, minX2)
    ensures var (d, x1, x2) := PairFrom(gl, xs1, xs2, dist, t1, t2, minD, minX1, minX2);
            PairState(gl, xs1, xs2, dist, |xs1|, 0, d, x1, x2)
    decreases |xs1| - t1, |xs2| - t2
  {
    if t1 == |xs1| {
    } else if t2 == |xs2| {
      assert PairState(gl, xs1, xs2, dist, t1 + 1, 0, minD, minX1, minX2);
      PairKeepsState(gl, xs1, xs2, dist, t1 + 1, 0, minD, minX1, minX2);
    } else {
      var x1, x2 := xs1[t1], xs2[t2];
      var d := dist[gl[x1].sat, gl[x2].sat];
      var pd := PairDist(gl, dist, x1, x2);
      if d != Inf && Greater(minD, pd) {
        assert PairState(gl, xs1, xs2, dist, t1, t2 + 1, pd, x1, x2);
        PairKeepsState(gl, xs1, xs2, dist, t1, t2 + 1, pd, x1, x2);
      } else {
        assert PairState(gl, xs1, xs2, dist, t1, t2 + 1, minD, minX1, minX2);
        PairKeepsState(gl, xs1, xs2, dist, t1, t2 + 1, minD, minX1, minX2);
      }
    }
  }

  /** The pair scan ends without a pair exactly when it started without one
      and no pair from `(t1, t2)` on is connected. */
  lemma {:induction false} PairNoneIff(gl: seq<GstLink>, xs1: seq<nat>, xs2: seq<nat>, dist: array2<Dist>,
                                       t1: nat, t2: nat, minD: Dist, minX1: int, minX2: int)
    requires t1 <= |xs1| && t2 <= |xs2|
    requires LinksFit(gl, xs1, dist.Length0) && LinksFit(gl, xs2, dist.Length1)
    requires minX1 >= -1 && (minX1 == -1 ==> minD == Inf)
    ensures var (d, x1, x2) := PairFrom(gl, xs1, xs2, dist, t1, t2, minD, minX1, minX2);
            x1 == -1 <==> (minX1 == -1 &&
                           forall u1, u2 | 0 <= u1 < |xs1| && 0 <= u2 < |xs2| && !PairBefore(u1, u2, t1, t2) ::
                             dist[gl[xs1[u1]].sat, gl[xs2[u2]].sat] == Inf)
    decreases |xs1| - t1, |xs2| - t2
  {
    if t1 == |xs1| {
    } else if t2 == |xs2| {
      PairNoneIff(gl, xs1, xs2, dist, t1 + 1, 0, minD, minX1, minX2);
    } else {
      var x1, x2 := xs1[t1], xs2[t2];
      var d := dist[gl[x1].sat, gl[x2].sat];
      var pd := PairDist(gl, dist, x1, x2);
      if d != Inf && Greater(minD, pd) {
        PairNoneIff(gl, xs1, xs2, dist, t1, t2 + 1, pd, x1, x2);
      } else {
        PairNoneIff(gl, xs1, xs2, dist, t1, t2 + 1, minD, minX1, minX2);
      }
    }
  }

  /** The distance the pair scan ends with is at most that of every pair,
      given that the best so far is at most that of every pair passed. */
  lemma {:induction false} PairShortest(gl: seq<GstLink>, xs1: seq<nat>, xs2: seq<nat>, dist: array2<Dist>,
                                        t1: nat, t2: nat, minD: Dist, minX1: int, minX2: int)
    requires t1 <= |xs1| && t2 <= |xs2|
    requires LinksFit(gl, xs1, dist.Length0) && LinksFit(gl, xs2, dist.Length1)
    requires forall u1, u2 | 0 <= u1 < |xs1| && 0 <= u2 < |xs2| && PairBefore(u1, u2, t1, t2) ::
               AtMost(minD, PairDist(gl, dist, xs1[u1], xs2[u2]))
    ensures var (d, x1, x2) := PairFrom(gl, xs1, xs2, dist, t1, t2, minD, minX1, minX2);
            forall u1, u2 | 0 <= u1 < |xs1| && 0 <= u2 < |xs2| :: AtMost(d, PairDist(gl, dist, xs1[u1], xs2[u2]))
    decreases |xs1| - t1, |xs2| - t2
  {
    if t1 == |xs1| {
    } else if t2 == |xs2| {
      PairShortest(gl, xs1, xs2, dist, t1 + 1, 0, minD, minX1, minX2);
    } else {
      var x1, x2 := xs1[t1], xs2[t2];
      var d := dist[gl[x1].sat, gl[x2].sat];
      var pd := PairDist(gl, dist, x1, x2);
      if d != Inf && Greater(minD, pd) {
        PairShortest(gl, xs1, xs2, dist, t1, t2 + 1, pd, x1, x2);
      } else {
        PairShortest(gl, xs1, xs2, dist, t1, t2 + 1, minD, minX1, minX2);
      }
    }
  }

  /** A station pair is inactive exactly when no uplink satellite of the one
      is connected to one of the other; an active pair goes through the
      uplinks with the shortest way between the stations. */
  lemma GstGstEntry(before: Path, gl: seq<GstLink>, xs1: seq<nat>, xs2: seq<nat>, dist: array2<Dist>,
                    bw1: nat, bw2: nat, isl: nat)
    requires LinksFit(gl, xs1, dist.Length0) && LinksFit(gl, xs2, dist.Length1)
    ensures var p := GstGstPath(before, gl, xs1, xs2, dist, bw1, bw2, isl);
            (!p.active <==> forall u1, u2 | 0 <= u1 < |xs1| && 0 <= u2 < |xs2| ::
                              dist[gl[xs1[u1]].sat, gl[xs2[u2]].sat] == Inf) &&
            (!p.active ==> p == before.(active := false))
    ensures var p := GstGstPath(before, gl, xs1, xs2, dist, bw1, bw2, isl);
            p.active ==>
              p.bandwidth == Min(Min(bw1, bw2), isl) &&
              exists u1, u2 | 0 <= u1 < |xs1| && 0 <= u2 < |xs2| ::
                p.nextHop == gl[xs1[u1]].sat && p.prevHop == gl[xs2[u2]].sat &&
                dist[gl[xs1[u1]].sat, gl[xs2[u2]].sat].Fin? &&
                p.delay == DelayUs(PairDist(gl, dist, xs1[u1], xs2[u2])) &&
                forall v1, v2 | 0 <= v1 < |xs1| && 0 <= v2 < |xs2| ::
                  AtMost(PairDist(gl, dist, xs1[u1], xs2[u2]), PairDist(gl, dist, xs1[v1], xs2[v2]))
  {
    PairKeepsState(gl, xs1, xs2, dist, 0, 0, Inf, -1, -1);
    PairNoneIff(gl, xs1, xs2, dist, 0, 0, Inf, -1, -1);
    PairShortest(gl, xs1, xs2, dist, 0, 0, Inf, -1, -1);
  }

  /** The scan loops over two stations' uplink pairs. */
  method ScanPairs(gl: seq<GstLink>, xs1: seq<nat>, xs2: seq<nat>, dist: array2<Dist>)
    returns (minD: Dist, minX1: int, minX2: int)
    requires LinksFit(gl, xs1, dist.Length0) && LinksFit(gl, xs2, dist.Length1)
    ensures (minD, minX1, minX2) == PairFrom(gl, xs1, xs2, dist, 0, 0, Inf, -1, -1)
  {
    minD, minX1, minX2 := Inf, -1, -1;
    for t1 := 0 to |xs1|
      invariant PairFrom(gl, xs1, xs2, dist, t1, 0, minD, minX1, minX2) ==
                PairFrom(gl, xs1, xs2, dist, 0, 0, Inf, -1, -1)
    {
      for t2 := 0 to |xs2|
        invariant PairFrom(gl, xs1, xs2, dist, t1, t2, minD, minX1, minX2) ==
                  PairFrom(gl, xs1, xs2, dist, 0, 0, Inf, -1, -1)
      {
        var x1, x2 := xs1[t1], xs2[t2];
        var d := dist[gl[x1].sat, gl[x2].sat];
        if d == Inf {
          continue;
        }
        var pathDist := Plus(Plus(d, Fin(gl[x1].distance)), Fin(gl[x2].distance));
        if !Greater(minD, pathDist) {
          continue;
        }
        minD, minX1, minX2 := pathDist, x1, x2;
      }
    }
  }

  /** The inner loop of the station-pair part: for station `g1`, entry
      `[n + g1, n + g2]` of every later station `g2` becomes `GstGstPath` of
      what it held; every other entry is left as it was. */
  method FillPairRow(pm: array2<Path>, dist: array2<Dist>, n: nat, gl: seq<GstLink>,
                     gsts: seq<GroundStation>, valid: seq<seq<nat>>, g1: nat, i: nat, isl: nat)
    requires dist.Length0 == n == dist.Length1
    requires pm.Length0 == n + |gsts| == pm.Length1 && g1 < |gsts| && i == n + g1
    requires |valid| == |gsts| && forall g | 0 <= g < |gsts| :: LinksFit(gl, valid[g], n)
    requires HopsInRange(pm, pm.Length0)
    modifies pm
    ensures HopsInRange(pm, pm.Length0)
    ensures forall b | i < b < n + |gsts| ::
              pm[i, b] == GstGstPath(old(pm[i, b]), gl, valid[g1], valid[b - n], dist,
                                     gsts[g1].bandwidth, gsts[b - n].bandwidth, isl)
    ensures forall a, b | 0 <= a < pm.Length0 && 0 <= b < pm.Length1 && !(a == i && i < b) ::
              pm[a, b] == old(pm[a, b])
  {
    for g2 := g1 + 1 to |gsts|
      invariant HopsInRange(pm, pm.Length0)
      invariant forall b | i < b < n + g2 ::
                  pm[i, b] == GstGstPath(old(pm[i, b]), gl, valid[g1], valid[b - n], dist,
                                         gsts[g1].bandwidth, gsts[b - n].bandwidth, isl)
      invariant forall a, b | 0 <= a < pm.Length0 && 0 <= b < pm.Length1 && !(a == i && i < b < n + g2) ::
                  pm[a, b] == old(pm[a, b])
    {
      var j := n + g2;
      var p := PairEntry(pm[i, j], gl, valid[g1], valid[g2], dist, gsts[g1].bandwidth, gsts[g2].bandwidth, isl,
                         pm.Length0);
      pm[i, j] := p;
    }
  }

  /** One station-pair entry: the scan over the two stations' uplink pairs,
      then the entry it yields from what the entry held (`before`); hops
      within `m` nodes stay within them. */
  method PairEntry(before: Path, gl: seq<GstLink>, xs1: seq<nat>, xs2: seq<nat>, dist: array2<Dist>,
                   bw1: nat, bw2: nat, isl: nat, m: nat) returns (p: Path)
    requires LinksFit(gl, xs1, dist.Length0) && LinksFit(gl, xs2, dist.Length1)
    requires dist.Length0 <= m && dist.Length1 <= m
    ensures p == GstGstPath(before, gl, xs1, xs2, dist, bw1, bw2, isl)
    ensures -1 <= before.nextHop < m && -1 <= before.prevHop < m ==> -1 <= p.nextHop < m && -1 <= p.prevHop < m
  {
    var minD, minX1, minX2 := ScanPairs(gl, xs1, xs2, dist);
    PairKeepsState(gl, xs1, xs2, dist, 0, 0, Inf, -1, -1);
    if minX1 == -1 {
      return before.(active := false);
    }
    p := Path(true, gl[minX1].sat, gl[minX2].sat, Min(Min(bw1, bw2), isl), DelayUs(minD));
  }

  /** The station-pair part of the path matrix: for station nodes
      `n <= a < b`, entry `[a, b]` becomes `GstGstPath` of what it held;
      every other entry is left as it was. */
  method FillGstGstPaths(pm: array2<Path>, dist: array2<Dist>, n: nat, gl: seq<GstLink>,
                         gsts: seq<GroundStation>, valid: seq<seq<nat>>, isl: nat)
    requires dist.Length0 == n == dist.Length1
    requires pm.Length0 == n + |gsts| == pm.Length1
    requires |valid| == |gsts| && forall g | 0 <= g < |gsts| :: LinksFit(gl, valid[g], n)
    requires HopsInRange(pm, pm.Length0)
    modifies pm
    ensures HopsInRange(pm, pm.Length0)
    ensures forall a, b | n <= a < b < n + |gsts| ::
              pm[a, b] == GstGstPath(old(pm[a, b]), gl, valid[a - n], valid[b - n], dist,
                                     gsts[a - n].bandwidth, gsts[b - n].bandwidth, isl)
    ensures forall a, b | 0 <= a < pm.Length0 && 0 <= b < pm.Length1 && !(n <= a < b) ::
              pm[a, b] == old(pm[a, b])
  {
    for g1 := 0 to |gsts|
      invariant HopsInRange(pm, pm.Length0)
      invariant forall a, b | n <= a < n + g1 && a < b < n + |gsts| ::
                  pm[a, b] == GstGstPath(old(pm[a, b]), gl, valid[a - n], valid[b - n], dist,
                                         gsts[a - n].bandwidth, gsts[b - n].bandwidth, isl)
      invariant forall a, b | 0 <= a < pm.Length0 && 0 <= b < pm.Length1 && !(n <= a < n + g1 && a < b) ::
                  pm[a, b] == old(pm[a, b])
    {
      FillPairRow(pm, dist, n, gl, gsts, valid, g1, n + g1, isl);
    }
  }

  /** The entries of a path matrix, row by row. */
  ghost function Entries(pm: array2<Path>): (e: seq<seq<Path>>)
    reads pm
    ensures |e| == pm.Length0 && forall a | 0 <= a < |e| :: |e[a]| == pm.Length1
    ensures forall a, b | 0 <= a < pm.Length0 && 0 <= b < pm.Length1 :: e[a][b] == pm[a, b]
  {
    seq(pm.Length0, a requires 0 <= a < pm.Length0 reads pm =>
      seq(pm.Length1, b requires 0 <= b < pm.Length1 reads pm => pm[a, b]))
  }

  /** The station-to-satellite entries after a path update: entry
      `[a, s1]` of station node `a` and satellite `s1` is `GstSatPath` of
      what it held before (`prior`), over the station's uplink positions
      among `gl`. */
  predicate StationSatsUpdated(prior: seq<seq<Path>>, pm: array2<Path>, gl: seq<GstLink>, gsts: seq<GroundStation>,
                               dist: array2<Dist>, next: array2<int>, n: nat, isl: nat)
    reads pm, dist, next
    requires Inv(dist, next, n) && pm.Length0 == n + |gsts| == pm.Length1
    requires |prior| == pm.Length0 && forall a | 0 <= a < |prior| :: |prior[a]| == pm.Length1
    requires UplinksFit(gl, n)
  {
    var valid := StationLists(gl, gsts);
    StationListsFit(gl, gsts, n);
    forall a, s1 | n <= a < n + |gsts| && 0 <= s1 < n ::
      pm[a, s1] == GstSatPath(prior[a][s1], gl, valid[a - n], dist, next, s1, a, gsts[a - n].bandwidth, isl)
  }

  /** The station-pair entries after a path update: entry `[a, b]` of
      station nodes `n <= a < b` is `GstGstPath` of what it held before
      (`prior`), over the two stations' uplink positions among `gl`. */
  predicate StationPairsUpdated(prior: seq<seq<Path>>, pm: array2<Path>, gl: seq<GstLink>, gsts: seq<GroundStation>,
                                dist: array2<Dist>, n: nat, isl: nat)
    reads pm, dist
    requires dist.Length0 == n == dist.Length1 && pm.Length0 == n + |gsts| == pm.Length1
    requires |prior| == pm.Length0 && forall a | 0 <= a < |prior| :: |prior[a]| == pm.Length1
    requires UplinksFit(gl, n)
  {
    var valid := StationLists(gl, gsts);
    StationListsFit(gl, gsts, n);
    forall a, b | n <= a < b < n + |gsts| ::
      pm[a, b] == GstGstPath(prior[a][b], gl, valid[a - n], valid[b - n], dist,
                             gsts[a - n].bandwidth, gsts[b - n].bandwidth, isl)
  }

  /** Over uplinks that all lead to satellites of the shell, every
      station's list of uplink positions fits the distance matrix. */
  lemma StationListsFit(gl: seq<GstLink>, gsts: seq<GroundStation>, n: nat)
    requires UplinksFit(gl, n)
    ensures forall g | 0 <= g < |gsts| :: LinksFit(gl, StationLists(gl, gsts)[g], n)
  {
  }

  /** `_numba_update_paths`: distances and next hops from the first `count`
      inter-satellite links, relaxed by Floyd–Warshall, then the satellite
      pairs, the station-to-satellite pairs over each station's uplinks among
      the recorded ground links `gl` (the first `total_gst_links` entries of
      the uplink array, which the update only reads), and the station pairs
      of the path matrix. The distance and next-hop matrices are local to
      the call. */
  method UpdatePaths(links: array<Link>, count: nat, n: nat, pm: array2<Path>, gsts: seq<GroundStation>,
                     gl: seq<GstLink>, isl: nat)
    returns (ghost dist: array2<Dist>, ghost next: array2<int>)
    requires count <= links.Length
    requires forall x | 0 <= x < count :: 0 <= links[x].node1 < n && 0 <= links[x].node2 < n
    requires pm.Length0 == n + |gsts| == pm.Length1
    requires UplinksFit(gl, n)
    requires HopsInRange(pm, n + |gsts|)
    modifies pm
    ensures fresh(dist) && fresh(next) && Inv(dist, next, n)
    ensures HopsInRange(pm, n + |gsts|)
    ensures forall i, j | 0 <= i < n && 0 <= j < n ::
              AtMost(dist[i, j], if i == j then Fin(0) else LinkDist(links[..count], i, j))
    ensures forall i, j | 0 <= i < j < n :: pm[i, j] == SatPath(dist, next, i, j, isl)
    ensures StationSatsUpdated(old(Entries(pm)), pm, gl, gsts, dist, next, n, isl)
    ensures StationPairsUpdated(old(Entries(pm)), pm, gl, gsts, dist, n, isl)
    ensures forall a, b | 0 <= a < pm.Length0 && 0 <= b < pm.Length1 && !(a < b) && !(n <= a && b < n) ::
              pm[a, b] == old(pm[a, b])
  {
    var d, nx := InitDistances(links, count, n);
    InitialInv(d, nx, links[..count], n);
    FloydWarshall(d, nx, n);
    dist, next := d, nx;
    FillSatPaths(pm, d, nx, n, isl);
    label Sat:
    var valid := CollectStationLinks(gl, gsts);
    StationListsFit(gl, gsts, n);
    FillGstSatPaths(pm, d, nx, n, gl, gsts, valid, isl);
    label GstSat:
    FillGstGstPaths(pm, d, n, gl, gsts, valid, isl);
    forall a, s1 | n <= a < n + |gsts| && 0 <= s1 < n
      ensures pm[a, s1] == GstSatPath(old(pm[a, s1]), gl, valid[a - n], d, nx, s1, a,
                                      gsts[a - n].bandwidth, isl)
    {
      assert pm[a, s1] == old@GstSat(pm[a, s1]);
      assert old@Sat(pm[a, s1]) == old(pm[a, s1]);
    }
  }
}
