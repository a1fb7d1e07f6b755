/** The visualiser's side of routing: global node indices of the picked
    satellites and ground stations, the reading of `(shell, id)` pairs that
    arrive in `srv6_route` messages, the path it draws (sub-sampled when long),
    and the flags that decide when a route request may be sent. */
module Animation {
  import opened Common
  import opened Constellation
  import opened RouteServer

  /** `_calculateSatelliteIndex` for a 0-based shell: the satellites of the
      shells before it, plus the id. None when the shell lookup raises
      (a shell past the last one); a negative shell counts no shells. */
  function SatelliteIndexOf(sizes: seq<nat>, shell: int, id: int): Option<int>
  {
    if shell > |sizes| then None
    else Some(Prefix(sizes, if shell < 0 then 0 else shell) + id)
  }

  method SatelliteIndex(sizes: seq<nat>, shell: int, id: int) returns (r: Option<int>)
    ensures r == SatelliteIndexOf(sizes, shell, id)
  {
    var total := 0;
    var s := 0;
    while s < shell
      invariant 0 <= s && (shell >= 0 ==> s <= shell) && s <= |sizes|
      invariant total == Prefix(sizes, s)
      invariant shell < 0 ==> s == 0
    {
      if s >= |sizes| {
        return None;
      }
      total := total + sizes[s];
      s := s + 1;
    }
    return Some(total + id);
  }

  /** Satellite `id` of 0-based shell `s` sits at global index `idx`. */
  predicate IsSatellite(sizes: seq<nat>, idx: int, s: int, id: int)
  {
    0 <= s < |sizes| && 0 <= id < sizes[s] && Prefix(sizes, s) + id == idx
  }

  /** The decomposition loop of the `srv6_route` validity check and of
      `displaySRv6RoutePath`: the first shell whose satellites reach past the
      index, and the offset in it. An index outside the satellites is left as
      id `idx` of shell 0. */
  method Decompose(sizes: seq<nat>, idx: int) returns (shellNo: int, satId: int)
    ensures 0 <= idx < Total(sizes) ==> IsSatellite(sizes, idx, shellNo, satId)
    ensures !(0 <= idx < Total(sizes)) ==> shellNo == 0 && satId == idx
  {
    shellNo, satId := 0, idx;
    var accumulated := 0;
    var s := 0;
    while s < |sizes|
      invariant 0 <= s <= |sizes|
      invariant accumulated == Prefix(sizes, s)
      invariant idx >= 0 ==> accumulated <= idx
      invariant idx < 0 ==> s == 0
    {
      if satId < accumulated + sizes[s] {
        PrefixBelowTotal(sizes, s);
        return s, satId - accumulated;
      }
      accumulated := accumulated + sizes[s];
      s := s + 1;
    }
  }

  /** The animation's 0-based decomposition is the simulation's
      `_get_node_info` with the shell counted from 0. */
  lemma SatelliteIsNodeInfo(sizes: seq<nat>, idx: int, s: int, id: int)
    requires IsSatellite(sizes, idx, s, id)
    ensures IsNodeInfo(sizes, idx, (s + 1, id))
  {
    PrefixBelowTotal(sizes, s);
  }

  /** `_calculateSatelliteIndex` and the decomposition are inverse: a
      satellite's index lies among the satellites and decomposes back into that
      satellite and no other. */
  lemma SatelliteIndexDecomposes(sizes: seq<nat>, s: int, id: int, s2: int, id2: int)
    requires 0 <= s < |sizes| && 0 <= id < sizes[s]
    ensures SatelliteIndexOf(sizes, s, id).Some?
    ensures var idx := SatelliteIndexOf(sizes, s, id).value;
            0 <= idx < Total(sizes) && IsSatellite(sizes, idx, s, id) &&
            (IsSatellite(sizes, idx, s2, id2) ==> s2 == s && id2 == id)
  {
    var idx := Prefix(sizes, s) + id;
    SatelliteIsNodeInfo(sizes, idx, s, id);
    if IsSatellite(sizes, idx, s2, id2) {
      SatelliteIsNodeInfo(sizes, idx, s2, id2);
      NodeInfoUnique(sizes, idx, (s + 1, id), (s2 + 1, id2));
    }
  }

  /** `_calculate_node_global_index` with the number of the first satellite
      shell as a parameter: shell 0 with an id below the number of ground
      stations is a ground station; otherwise `shell - firstShell` must name a
      shell (else 0), and an id outside that shell gives the shell's first
      index. */
  function GlobalIndexWith(sizes: seq<nat>, numGst: nat, firstShell: int, shell: int, id: int): int
  {
    if shell == 0 && id < numGst then Total(sizes) + id
    else
      var k := shell - firstShell;
      if k < 0 || k >= |sizes| then 0
      else if id < 0 || id >= sizes[k] then Prefix(sizes, k)
      else Prefix(sizes, k) + id
  }

  /** As written the shell is read as a 0-based shell index. */
  function NodeGlobalIndexWritten(sizes: seq<nat>, numGst: nat, shell: int, id: int): int
  {
    GlobalIndexWith(sizes, numGst, 0, shell, id)
  }

  /** The shells that reach the animation are shell identifiers, 1 for the
      first satellite shell; read so, the conversion inverts the simulation's
      naming (`IntendedInvertsNodeInfo`). */
  function NodeGlobalIndexIntended(sizes: seq<nat>, numGst: nat, shell: int, id: int): int
  {
    GlobalIndexWith(sizes, numGst, 1, shell, id)
  }

  /** The loop of `_calculate_node_global_index`. */
  method NodeGlobalIndex(sizes: seq<nat>, numGst: nat, firstShell: int, shell: int, id: int)
    returns (r: int)
    ensures r == GlobalIndexWith(sizes, numGst, firstShell, shell, id)
  {
    if shell == 0 && id < numGst {
      return Total(sizes) + id;
    }
    var k := shell - firstShell;
    if k < 0 || k >= |sizes| {
      return 0;
    }
    var total := 0;
    var s := 0;
    while s < k
      invariant 0 <= s <= k
      invariant total == Prefix(sizes, s)
    {
      total := total + sizes[s];
      s := s + 1;
    }
    if id < 0 || id >= sizes[k] {
      return total;
    }
    return total + id;
  }

  /** Read with shell identifiers, every node the simulation names for an
      index of the constellation (satellites and ground stations) leads back to
      that index. */
  lemma IntendedInvertsNodeInfo(sizes: seq<nat>, numGst: nat, idx: int, r: (int, int))
    requires 0 <= idx < Total(sizes) + numGst && IsNodeInfo(sizes, idx, r)
    ensures NodeGlobalIndexIntended(sizes, numGst, r.0, r.1) == idx
  {
  }

  /** As written, with two shells of ten satellites and two ground stations:
      satellite 3 of the first shell (index 3) arrives as `(1, 3)` and is drawn
      at index 13, a satellite of the second shell; satellite 3 of the second
      shell (index 13) arrives as `(2, 3)` and is drawn at index 0. */
  lemma WrittenIndexShiftsShell()
    ensures IsNodeInfo([10, 10], 3, (1, 3)) && NodeGlobalIndexWritten([10, 10], 2, 1, 3) == 13
    ensures IsNodeInfo([10, 10], 13, (2, 3)) && NodeGlobalIndexWritten([10, 10], 2, 2, 3) == 0
    ensures NodeGlobalIndexIntended([10, 10], 2, 1, 3) == 3
    ensures NodeGlobalIndexIntended([10, 10], 2, 2, 3) == 13
  {
    assert Prefix([10, 10], 1) == 10;
    assert Total([10, 10]) == 20;
  }

  /** A node of an `srv6_route` message, read as a global index with the
      first satellite shell numbered `firstShell`: 0 as written, 1 as
      intended. */
  function MsgIndex(sizes: seq<nat>, numGst: nat, firstShell: int, n: (int, int)): int
  {
    GlobalIndexWith(sizes, numGst, firstShell, n.0, n.1)
  }

  /** The `srv6_route` path: the source, then every segment node, then the
      target unless the last node already is the target. */
  function Srv6Path(sizes: seq<nat>, numGst: nat, firstShell: int, m: RouteMsg): seq<int>
  {
    var p := [MsgIndex(sizes, numGst, firstShell, m.source)] +
             seq(|m.segments|, i requires 0 <= i < |m.segments| =>
                   MsgIndex(sizes, numGst, firstShell, m.segments[i]));
    var t := MsgIndex(sizes, numGst, firstShell, m.target);
    if p[|p| - 1] != t then p + [t] else p
  }

  /** The assembly loop of the `srv6_route` handler. */
  method AssembleSrv6Path(sizes: seq<nat>, numGst: nat, firstShell: int, m: RouteMsg) returns (path: seq<int>)
    ensures path == Srv6Path(sizes, numGst, firstShell, m)
  {
    var s := NodeGlobalIndex(sizes, numGst, firstShell, m.source.0, m.source.1);
    var t := NodeGlobalIndex(sizes, numGst, firstShell, m.target.0, m.target.1);
    path := [s];
    var i := 0;
    while i < |m.segments|
      invariant 0 <= i <= |m.segments|
      invariant path == [s] + seq(i, j requires 0 <= j < i => MsgIndex(sizes, numGst, firstShell, m.segments[j]))
    {
      var g := NodeGlobalIndex(sizes, numGst, firstShell, m.segments[i].0, m.segments[i].1);
      path := path + [g];
      i := i + 1;
    }
    if path[|path| - 1] != t {
      path := path + [t];
    }
  }

  /** The path starts at the source, lists every segment node in order, and
      always ends at the target. */
  lemma Srv6PathShape(sizes: seq<nat>, numGst: nat, firstShell: int, m: RouteMsg)
    ensures var p := Srv6Path(sizes, numGst, firstShell, m);
            var n := |m.segments|;
            (|p| == n + 1 || |p| == n + 2) &&
            p[0] == MsgIndex(sizes, numGst, firstShell, m.source) &&
            p[|p| - 1] == MsgIndex(sizes, numGst, firstShell, m.target) &&
            forall i | 0 <= i < n :: p[i + 1] == MsgIndex(sizes, numGst, firstShell, m.segments[i])
  {
  }

  /** Every node the simulation can name has a position: a path node is
      drawable when it is a satellite or a ground station index. */
  predicate Drawable(sizes: seq<nat>, numGst: nat, path: seq<int>)
  {
    (|path| == 0 || |sizes| > 0) &&
    forall i | 0 <= i < |path| :: 0 <= path[i] < Total(sizes) + numGst
  }

  /** The validity check of the `srv6_route` handler, with one position per
      satellite and per ground station: a negative index, a satellite whose
      decomposition falls outside the positions, or a ground station past the
      last one makes the path invalid. */
  method CheckPath(sizes: seq<nat>, numGst: nat, path: seq<int>) returns (valid: bool)
    ensures valid == Drawable(sizes, numGst, path)
  {
    valid := true;
    var i := 0;
    while i < |path|
      invariant 0 <= i <= |path|
      invariant valid == Drawable(sizes, numGst, path[..i])
    {
      assert path[..i + 1] == path[..i] + [path[i]];
      var node := path[i];
      if node < 0 {
        valid := false;
      } else if |sizes| == 0 {
        valid := false;
        assert !Drawable(sizes, numGst, path) by {
          assert path[i] == node;
        }
        assert !Drawable(sizes, numGst, path[..i + 1]);
        i := i + 1;
        while i < |path|
          invariant 0 <= i <= |path| && !valid
          invariant !Drawable(sizes, numGst, path[..i])
        {
          assert path[..i + 1][..i] == path[..i];
          i := i + 1;
        }
        break;
      } else if node < Total(sizes) {
        var shellNo, satId := Decompose(sizes, node);
        if shellNo >= |sizes| || satId >= sizes[shellNo] {
          valid := false;
        }
      } else if node - Total(sizes) >= numGst {
        valid := false;
      }
      i := i + 1;
    }
    assert path[..i] == path;
  }

  /** Read with shell identifiers, the path of a message whose nodes the
      simulation named for indices of the constellation is drawable, and lists
      exactly those indices. */
  lemma Srv6PathOfIndices(sizes: seq<nat>, numGst: nat, m: RouteMsg, src: int, hops: seq<int>, dst: int)
    requires |sizes| > 0 && |hops| == |m.segments|
    requires 0 <= src < Total(sizes) + numGst && IsNodeInfo(sizes, src, m.source)
    requires 0 <= dst < Total(sizes) + numGst && IsNodeInfo(sizes, dst, m.target)
    requires forall i | 0 <= i < |hops| ::
               0 <= hops[i] < Total(sizes) + numGst && IsNodeInfo(sizes, hops[i], m.segments[i])
    ensures var p := [src] + hops;
            Srv6Path(sizes, numGst, 1, m) == (if p[|p| - 1] != dst then p + [dst] else p)
    ensures Drawable(sizes, numGst, Srv6Path(sizes, numGst, 1, m))
  {
    IntendedInvertsNodeInfo(sizes, numGst, src, m.source);
    IntendedInvertsNodeInfo(sizes, numGst, dst, m.target);
    forall i | 0 <= i < |hops|
      ensures MsgIndex(sizes, numGst, 1, m.segments[i]) == hops[i]
    {
      IntendedInvertsNodeInfo(sizes, numGst, hops[i], m.segments[i]);
    }
    var q := [MsgIndex(sizes, numGst, 1, m.source)] +
             seq(|m.segments|, i requires 0 <= i < |m.segments| => MsgIndex(sizes, numGst, 1, m.segments[i]));
    assert q == [src] + hops;
  }

  /** As written (shells read from 0), with two shells of ten satellites and
      two ground stations: a route from satellite 3 to satellite 5 of the
      first shell, which arrive as `(1, 3)` and `(1, 5)`, is drawn between
      indices 13 and 15 of the second shell; read from 1 it is drawn between
      3 and 5. */
  lemma WrittenSrv6PathShifts(ts: real)
    ensures Srv6Path([10, 10], 2, 0, RouteMsg((1, 3), (1, 5), [], ts)) == [13, 15]
    ensures Srv6Path([10, 10], 2, 1, RouteMsg((1, 3), (1, 5), [], ts)) == [3, 5]
  {
    assert Prefix([10, 10], 1) == 10;
  }

  /** The longest path drawn. */
  const MaxPathNodes: nat := 20

  function PickIndex(k: nat, step: nat): nat
  {
    (k + 1) * step
  }

  lemma PickIndicesInRange(n: nat, step: nat, m: nat)
    requires n >= 1 && step >= 1 && m <= (n - 1) / step
    ensures forall k: nat | k < m :: PickIndex(k, step) <= n - 1
  {
    forall k: nat | k < m
      ensures PickIndex(k, step) <= n - 1
    {
      assert (k + 1) * step <= m * step by {
        MulMonotone(k + 1, m, step);
      }
      assert m * step <= ((n - 1) / step) * step by {
        MulMonotone(m, (n - 1) / step, step);
      }
    }
  }

  /** `path_nodes[step::step][:max_path_nodes - 2]`. */
  function Picks(p: seq<int>, step: nat): (r: seq<int>)
    requires |p| >= 1 && step >= 1
    ensures |r| <= MaxPathNodes - 2
    ensures forall k: nat | k < |r| :: PickIndex(k, step) < |p| && r[k] == p[PickIndex(k, step)]
  {
    var count := (|p| - 1) / step;
    var m := if count < MaxPathNodes - 2 then count else MaxPathNodes - 2;
    PickIndicesInRange(|p|, step, m);
    seq(m, k requires 0 <= k < m => p[PickIndex(k, step)])
  }

  /** The nodes `displayRoutePath` draws for a path of at least two nodes: the
      path itself up to `MaxPathNodes` nodes; a longer one keeps its first
      node, every `step`-th node up to eighteen of them, and its last node
      when that is not drawn already. */
  function SubSample(p: seq<int>): seq<int>
    requires |p| >= 2
  {
    if |p| <= MaxPathNodes then p
    else
      var step := |p| / (MaxPathNodes - 2);
      var sel := [p[0]] + Picks(p, step);
      if p[|p| - 1] in sel then sel else sel + [p[|p| - 1]]
  }

  predicate NoRepeats(p: seq<int>)
  {
    forall i, j | 0 <= i < j < |p| :: p[i] != p[j]
  }

  /** Every picked node is a node of the path. */
  lemma PicksFromPath(p: seq<int>, step: nat)
    requires |p| >= 1 && step >= 1
    ensures forall x | x in Picks(p, step) :: x in p
  {
    var picks := Picks(p, step);
    forall x | x in picks
      ensures x in p
    {
      var k :| 0 <= k < |picks| && picks[k] == x;
      assert p[PickIndex(k, step)] == x;
    }
  }

  /** On a path that visits no node twice, a pick of the last node is the last
      pick: a later pick would lie beyond the end of the path. */
  lemma PicksEndAtLast(p: seq<int>, step: nat)
    requires |p| >= 1 && step >= 1 && NoRepeats(p)
    requires p[|p| - 1] in Picks(p, step)
    ensures Picks(p, step)[|Picks(p, step)| - 1] == p[|p| - 1]
  {
    var picks := Picks(p, step);
    var k :| 0 <= k < |picks| && picks[k] == p[|p| - 1];
    assert PickIndex(k, step) == |p| - 1;
    assert PickIndex(k + 1, step) == PickIndex(k, step) + step;
    assert k + 1 == |picks|;
  }

  /** A path too long to draw whole is sampled with a step of at least one
      that picks at least one node. */
  lemma LongPathStep(n: nat)
    requires n > MaxPathNodes
    ensures n / (MaxPathNodes - 2) >= 1 && (n - 1) / (n / (MaxPathNodes - 2)) >= 1
  {
    var step := n / (MaxPathNodes - 2);
    assert 1 <= step <= n - 1;
    var q := (n - 1) / step;
    assert (n - 1) == q * step + (n - 1) % step;
    assert (n - 1) % step < step;
    assert q != 0;
  }

  /** The drawn path has at most twenty nodes, all from the path, starts at
      the path's first node and contains its last; when the path visits no
      node twice it also ends there. */
  lemma SubSampleShape(p: seq<int>)
    requires |p| >= 2
    ensures var r := SubSample(p);
            2 <= |r| <= MaxPathNodes && r[0] == p[0] && p[|p| - 1] in r &&
            (forall x | x in r :: x in p) &&
            (NoRepeats(p) ==> r[|r| - 1] == p[|p| - 1])
  {
    if |p| > MaxPathNodes {
      var step := |p| / (MaxPathNodes - 2);
      LongPathStep(|p|);
      var picks := Picks(p, step);
      assert |picks| >= 1;
      PicksFromPath(p, step);
      if NoRepeats(p) && p[|p| - 1] in picks {
        assert p[|p| - 1] != p[0];
        PicksEndAtLast(p, step);
      }
    }
  }

  /** `last_route_update`: a simulation time or `float('inf')`. */
  datatype Stamp = At(t: real) | Infinity

  /** A picked node: a satellite of a 0-based shell, or a ground station. */
  datatype Pick = Satellite(shell: int, id: int) | GroundStation(id: int)

  /** A pick that names a node the animation shows. */
  predicate ValidPick(sizes: seq<nat>, numGst: nat, p: Pick)
  {
    match p
    case Satellite(s, id) => 0 <= s < |sizes| && 0 <= id < sizes[s]
    case GroundStation(id) => 0 <= id < numGst
  }

  /** The global index `showRoutePath` computes for a pick. */
  function PickedIndex(sizes: seq<nat>, p: Pick): int
    requires p.Satellite? ==> 0 <= p.shell <= |sizes|
  {
    match p
    case Satellite(s, id) => Prefix(sizes, s) + id
    case GroundStation(id) => Total(sizes) + id
  }

  /** The simulation reads a picked node's index back as that node, with the
      satellite shell counted from 1 and ground stations in shell 0. */
  lemma PickedIndexNames(sizes: seq<nat>, numGst: nat, p: Pick)
    requires ValidPick(sizes, numGst, p)
    ensures 0 <= PickedIndex(sizes, p) < Total(sizes) + numGst
    ensures p.Satellite? ==> IsNodeInfo(sizes, PickedIndex(sizes, p), (p.shell + 1, p.id))
    ensures p.GroundStation? ==> IsNodeInfo(sizes, PickedIndex(sizes, p), (0, p.id))
  {
    if p.Satellite? {
      SatelliteIsNodeInfo(sizes, PickedIndex(sizes, p), p.shell, p.id);
    }
  }

  /** A `get_route` request. */
  datatype Request = Request(source: int, target: int)

  /** The route fields of the animation object. `pathShown` stands for a
      route path actor being on screen. */
  datatype ViewState = ViewState(
    routeReset: bool,
    pending: bool,
    lastRouteUpdate: Stamp,
    lastRequestTime: Option<real>,
    resetTimerStart: Option<real>,
    currentPath: Option<seq<int>>,
    source: Option<Pick>,
    target: Option<Pick>,
    sourceIndex: Option<int>,
    targetIndex: Option<int>,
    pathShown: bool)

  const RouteResetDuration: real := 3.0
  const RouteMinUpdateInterval: real := 2.0

  /** The values the constructor sets. */
  const InitialView := ViewState(false, false, At(0.0), None, None, None, None, None, None, None, false)

  /** What the flags keep true: a pending request has both indices, there is
      no pending request during a reset, and the selected nodes exist. */
  predicate ViewInv(sizes: seq<nat>, numGst: nat, v: ViewState)
  {
    (v.pending ==> v.sourceIndex.Some? && v.targetIndex.Some?) &&
    (v.routeReset ==> !v.pending) &&
    (v.source.Some? ==> ValidPick(sizes, numGst, v.source.value)) &&
    (v.target.Some? ==> ValidPick(sizes, numGst, v.target.value))
  }

  /** `displayRoutePath`: a path of fewer than two nodes is ignored; otherwise
      it becomes the current path and is drawn. */
  function Display(v: ViewState, path: seq<int>): ViewState
  {
    if |path| < 2 then v else v.(currentPath := Some(path), pathShown := true)
  }

  /** `clearRoutePath`: the selection, the indices and the pending request are
      dropped, the reset starts now, no request counts as due, and there is no
      current path. */
  function Clear(v: ViewState, now: real): ViewState
  {
    v.(pathShown := false, source := None, target := None, sourceIndex := None, targetIndex := None,
       pending := false, routeReset := true, lastRouteUpdate := Infinity,
       lastRequestTime := if v.lastRequestTime.Some? then Some(now + RouteResetDuration) else None,
       resetTimerStart := Some(now), currentPath := None)
  }

  /** What the reset branch of `updateRoutePath` and a `route` reply during a
      reset both do: no request pending, nothing drawn, an empty current path,
      and no request due. */
  function HoldReset(v: ViewState): ViewState
  {
    v.(pending := false, pathShown := false, currentPath := Some([]), lastRouteUpdate := Infinity)
  }

  /** A request is due when both indices are known, the network changed since
      the last route (an animation step later than `last_route_update`) and
      the last request is more than the minimum interval ago. */
  predicate Due(v: ViewState, now: real, lastAnimate: real)
  {
    v.sourceIndex.Some? && v.targetIndex.Some? &&
    v.lastRouteUpdate.At? && v.lastRouteUpdate.t < lastAnimate &&
    (v.lastRequestTime.None? || now - v.lastRequestTime.value > RouteMinUpdateInterval)
  }

  /** `updateRoutePath` at wall time `now`, simulation time `simTime` and last
      animation step `lastAnimate`, where `sendOk` says whether the request
      could be written to the pipe. Returns the new fields and the request
      sent. */
  function UpdateRoute(v: ViewState, now: real, simTime: real, lastAnimate: real, sendOk: bool)
    : (ViewState, Option<Request>)
  {
    if v.routeReset then
      var w := HoldReset(v);
      if v.resetTimerStart.Some? && now - v.resetTimerStart.value > RouteResetDuration then
        (w.(routeReset := false, resetTimerStart := None, lastRouteUpdate := At(simTime)), None)
      else (w, None)
    else if v.pending then (v, None)
    else if v.source.Some? && v.target.Some? then
      var due := Due(v, now, lastAnimate);
      var w := if due then v.(lastRouteUpdate := At(simTime), lastRequestTime := Some(now), pending := sendOk)
               else v;
      var sent := if due && sendOk then Some(Request(v.sourceIndex.value, v.targetIndex.value)) else None;
      if w.currentPath.Some? && |w.currentPath.value| > 0 then
        (Display(w.(pathShown := false), w.currentPath.value), sent)
      else (w, sent)
    else if !v.pathShown then (Clear(v, now), None)
    else (v, None)
  }

  /** `showRoutePath` for two valid picks: the reset ends, both indices are
      stored, the request is sent (pending until the reply) and the direct
      path is drawn; a failed send leaves nothing pending. */
  function ShowRoute(sizes: seq<nat>, v: ViewState, src: Pick, tgt: Pick, sendOk: bool)
    : (ViewState, Option<Request>)
    requires src.Satellite? ==> 0 <= src.shell <= |sizes|
    requires tgt.Satellite? ==> 0 <= tgt.shell <= |sizes|
  {
    var si, ti := PickedIndex(sizes, src), PickedIndex(sizes, tgt);
    var w := v.(pathShown := false, routeReset := false, resetTimerStart := None,
                sourceIndex := Some(si), targetIndex := Some(ti), pending := true);
    if sendOk then (Display(w, [si, ti]), Some(Request(si, ti)))
    else (w.(pending := false), None)
  }

  /** A `route` reply carrying `path` (None when the reply has no `path`
      member), handled at simulation time `simTime`. */
  function RouteReply(v: ViewState, path: Option<seq<int>>, simTime: real): ViewState
  {
    if v.routeReset then HoldReset(v)
    else if path.Some? then v.(currentPath := path, lastRouteUpdate := At(simTime), pending := false)
    else v
  }

  lemma InitialViewInv(sizes: seq<nat>, numGst: nat)
    ensures ViewInv(sizes, numGst, InitialView)
  {
  }

  lemma UpdateRouteInv(sizes: seq<nat>, numGst: nat, v: ViewState, now: real, simTime: real,
                       lastAnimate: real, sendOk: bool)
    requires ViewInv(sizes, numGst, v)
    ensures ViewInv(sizes, numGst, UpdateRoute(v, now, simTime, lastAnimate, sendOk).0)
  {
  }

  lemma ShowRouteInv(sizes: seq<nat>, numGst: nat, v: ViewState, src: Pick, tgt: Pick, sendOk: bool)
    requires ViewInv(sizes, numGst, v) && ValidPick(sizes, numGst, src) && ValidPick(sizes, numGst, tgt)
    ensures ViewInv(sizes, numGst, ShowRoute(sizes, v, src, tgt, sendOk).0)
  {
  }

  lemma RouteReplyInv(sizes: seq<nat>, numGst: nat, v: ViewState, path: Option<seq<int>>, simTime: real)
    requires ViewInv(sizes, numGst, v)
    ensures ViewInv(sizes, numGst, RouteReply(v, path, simTime))
  {
  }

  lemma ClearInv(sizes: seq<nat>, numGst: nat, v: ViewState, now: real)
    ensures ViewInv(sizes, numGst, Clear(v, now))
  {
  }

  /** Nothing is sent during a reset or while a request is pending; a request
      that is sent names the stored indices and leaves a request pending. */
  lemma UpdateRouteSends(v: ViewState, now: real, simTime: real, lastAnimate: real, sendOk: bool)
    ensures var (w, sent) := UpdateRoute(v, now, simTime, lastAnimate, sendOk);
            ((v.routeReset || v.pending) ==> sent.None?) &&
            (sent.Some? <==> !v.routeReset && !v.pending && v.source.Some? && v.target.Some? &&
                             Due(v, now, lastAnimate) && sendOk) &&
            (sent.Some? ==> sent.value == Request(v.sourceIndex.value, v.targetIndex.value) &&
                            w.pending && w.lastRouteUpdate == At(simTime) && w.lastRequestTime == Some(now))
  {
  }

  /** A reset ends on the first update after `RouteResetDuration` has passed,
      and not before; neither update sends anything. */
  lemma ResetEnds(v: ViewState, now: real, simTime: real, lastAnimate: real, sendOk: bool)
    requires v.routeReset
    ensures var (w, sent) := UpdateRoute(v, now, simTime, lastAnimate, sendOk);
            sent.None? && !w.pending && w.currentPath == Some([]) &&
            (!w.routeReset <==> v.resetTimerStart.Some? && now - v.resetTimerStart.value > RouteResetDuration)
  {
  }

  /** After `clearRoutePath`, no request is sent for `RouteResetDuration`. */
  lemma ClearBlocksRequests(v: ViewState, cleared: real, now: real, simTime: real, lastAnimate: real,
                            sendOk: bool)
    requires now - cleared <= RouteResetDuration
    ensures var (w, sent) := UpdateRoute(Clear(v, cleared), now, simTime, lastAnimate, sendOk);
            sent.None? && w.routeReset
  {
  }

  /** A reply during a reset is dropped (and clears the pending request);
      otherwise a reply with a path makes it the current path, clears the
      pending request, and no new request is sent before an animation step
      past the reply. */
  lemma RouteReplyOutcome(v: ViewState, path: seq<int>, simTime: real, now: real, lastAnimate: real,
                          sendOk: bool)
    ensures var w := RouteReply(v, Some(path), simTime);
            !w.pending &&
            (v.routeReset ==> w.currentPath == Some([])) &&
            (!v.routeReset ==> w.currentPath == Some(path) && w.lastRouteUpdate == At(simTime)) &&
            (!v.routeReset && lastAnimate <= simTime ==>
               UpdateRoute(w, now, simTime, lastAnimate, sendOk).1.None?)
  {
  }

  /** The animation object's route fields, and its operations on them. */
  class RouteView {
    const sizes: seq<nat>
    const numGst: nat
    var routeReset: bool
    var pending: bool
    var lastRouteUpdate: Stamp
    var lastRequestTime: Option<real>
    var resetTimerStart: Option<real>
    var currentPath: Option<seq<int>>
    var source: Option<Pick>
    var target: Option<Pick>
    var sourceIndex: Option<int>
    var targetIndex: Option<int>
    var pathShown: bool

    function State(): ViewState
      reads this
    {
      ViewState(routeReset, pending, lastRouteUpdate, lastRequestTime, resetTimerStart, currentPath,
                source, target, sourceIndex, targetIndex, pathShown)
    }

    predicate Valid()
      reads this
    {
      ViewInv(sizes, numGst, State())
    }

    method SetState(v: ViewState)
      modifies this
      ensures State() == v
    {
      routeReset, pending, lastRouteUpdate := v.routeReset, v.pending, v.lastRouteUpdate;
      lastRequestTime, resetTimerStart, currentPath := v.lastRequestTime, v.resetTimerStart, v.currentPath;
      source, target, sourceIndex, targetIndex := v.source, v.target, v.sourceIndex, v.targetIndex;
      pathShown := v.pathShown;
    }

    constructor (sizes: seq<nat>, numGst: nat)
      ensures this.sizes == sizes && this.numGst == numGst
      ensures State() == InitialView && Valid()
    {
      this.sizes, this.numGst := sizes, numGst;
      routeReset, pending, lastRouteUpdate := false, false, At(0.0);
      lastRequestTime, resetTimerStart, currentPath := None, None, None;
      source, target, sourceIndex, targetIndex := None, None, None, None;
      pathShown := false;
    }

    /** `displayRoutePath`; returns the nodes drawn. */
    method DisplayRoutePath(path: seq<int>) returns (drawn: Option<seq<int>>)
      requires Valid()
      modifies this
      ensures Valid() && State() == Display(old(State()), path)
      ensures drawn == (if |path| >= 2 then Some(SubSample(path)) else None)
    {
      if |path| < 2 {
        return None;
      }
      currentPath := Some(path);
      pathShown := true;
      drawn := Some(SubSample(path));
    }

    method ClearRoutePath(now: real)
      modifies this
      ensures Valid() && State() == Clear(old(State()), now)
    {
      pathShown := false;
      source, target := None, None;
      sourceIndex, targetIndex := None, None;
      pending := false;
      routeReset := true;
      lastRouteUpdate := Infinity;
      if lastRequestTime.Some? {
        lastRequestTime := Some(now + RouteResetDuration);
      }
      resetTimerStart := Some(now);
      currentPath := None;
    }

    method UpdateRoutePath(now: real, simTime: real, lastAnimate: real, sendOk: bool)
      returns (sent: Option<Request>)
      requires Valid()
      modifies this
      ensures Valid() && (State(), sent) == UpdateRoute(old(State()), now, simTime, lastAnimate, sendOk)
    {
      sent := None;
      if routeReset {
        pending, pathShown, currentPath, lastRouteUpdate := false, false, Some([]), Infinity;
        if resetTimerStart.Some? && now - resetTimerStart.value > RouteResetDuration {
          routeReset, resetTimerStart := false, None;
          lastRouteUpdate := At(simTime);
        }
        return;
      }
      if pending {
        return;
      }
      if source.Some? && target.Some? {
        if Due(State(), now, lastAnimate) {
          lastRouteUpdate := At(simTime);
          lastRequestTime := Some(now);
          pending := true;
          if sendOk {
            sent := Some(Request(sourceIndex.value, targetIndex.value));
          } else {
            pending := false;
          }
        }
        if currentPath.Some? && |currentPath.value| > 0 {
          pathShown := false;
          var _ := DisplayRoutePath(currentPath.value);
        }
      } else if !pathShown {
        ClearRoutePath(now);
      }
    }

    method ShowRoutePath(src: Pick, tgt: Pick, sendOk: bool) returns (sent: Option<Request>)
      requires Valid() && ValidPick(sizes, numGst, src) && ValidPick(sizes, numGst, tgt)
      modifies this
      ensures Valid() && (State(), sent) == ShowRoute(sizes, old(State()), src, tgt, sendOk)
    {
      ShowRouteInv(sizes, numGst, State(), src, tgt, sendOk);
      pathShown := false;
      routeReset, resetTimerStart := false, None;
      var si := IndexOfPick(src);
      var ti := IndexOfPick(tgt);
      sourceIndex, targetIndex := Some(si), Some(ti);
      pending := true;
      if sendOk {
        sent := Some(Request(si, ti));
        var _ := DisplayRoutePath([si, ti]);
      } else {
        pending := false;
        sent := None;
      }
    }

    /** The index loops of `showRoutePath`. */
    method IndexOfPick(p: Pick) returns (idx: int)
      requires ValidPick(sizes, numGst, p)
      ensures idx == PickedIndex(sizes, p)
    {
      match p
      case Satellite(s, id) =>
        var r := SatelliteIndex(sizes, s, id);
        idx := r.value;
      case GroundStation(id) =>
        idx := Total(sizes) + id;
    }

    method OnRouteReply(path: Option<seq<int>>, simTime: real)
      requires Valid()
      modifies this
      ensures Valid() && State() == RouteReply(old(State()), path, simTime)
    {
      if routeReset {
        pending, pathShown, currentPath, lastRouteUpdate := false, false, Some([]), Infinity;
      } else if path.Some? {
        currentPath := path;
        lastRouteUpdate := At(simTime);
        pending := false;
      }
    }
  }

  /** The `srv6_route` handler: the path is assembled and checked, and drawn
      when it has at least two nodes and all of them are drawable. The source
      is the handler with `firstShell` 0 (see `WrittenSrv6PathShifts`). */
  method HandleSrv6Route(sizes: seq<nat>, numGst: nat, firstShell: int, m: RouteMsg)
    returns (path: seq<int>, drawn: bool)
    ensures path == Srv6Path(sizes, numGst, firstShell, m)
    ensures drawn <==> |path| >= 2 && Drawable(sizes, numGst, path)
  {
    path := AssembleSrv6Path(sizes, numGst, firstShell, m);
    var valid := CheckPath(sizes, numGst, path);
    drawn := |path| >= 2 && valid;
  }
}
