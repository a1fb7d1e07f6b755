/** The simulation side of the visualiser's route requests: global node
    indices (satellites of all shells first, shell by shell, then the ground
    stations) are turned into `(shell, id)` pairs for the path service, and the
    service's segment list is turned back into a list of global indices. */
module Constellation {
  import opened Common
  import opened PathJson

  /** What `_get_node_info` answers for global index `idx`, where `sizes` are
      the satellite counts of the shells: an index past the satellites is
      ground station `idx - Total` in shell 0; a negative index is left as id
      `idx` of shell 1; any other index lies in exactly one 1-based shell `k`,
      at offset `id` behind the satellites of the shells before it. */
  predicate IsNodeInfo(sizes: seq<nat>, idx: int, r: (int, int))
  {
    if idx >= Total(sizes) then r == (0, idx - Total(sizes))
    else if idx < 0 then r == (1, idx)
    else 1 <= r.0 <= |sizes| && 0 <= r.1 < sizes[r.0 - 1] && Prefix(sizes, r.0 - 1) + r.1 == idx
  }

  /** `_get_node_info`: the walk over the shells with the running count of the
      satellites before the current shell. */
  method GetNodeInfo(sizes: seq<nat>, idx: int) returns (r: (int, int))
    ensures IsNodeInfo(sizes, idx, r)
  {
    if idx < Total(sizes) {
      var accumulated := 0;
      var i := 0;
      while i < |sizes|
        invariant 0 <= i <= |sizes|
        invariant accumulated == Prefix(sizes, i)
        invariant idx >= 0 ==> accumulated <= idx
        invariant idx < 0 ==> i == 0
      {
        if idx < accumulated + sizes[i] {
          return (i + 1, idx - accumulated);
        }
        accumulated := accumulated + sizes[i];
        i := i + 1;
      }
      return (1, idx);
    }
    return (0, idx - Total(sizes));
  }

  /** A satellite index has only one decomposition, so the contract of
      `GetNodeInfo` fixes its answer. */
  lemma NodeInfoUnique(sizes: seq<nat>, idx: int, r1: (int, int), r2: (int, int))
    requires IsNodeInfo(sizes, idx, r1) && IsNodeInfo(sizes, idx, r2)
    ensures r1 == r2
  {
    if 0 <= idx < Total(sizes) && r1.0 != r2.0 {
      if r1.0 < r2.0 {
        PrefixMonotone(sizes, r1.0, r2.0 - 1);
      } else {
        PrefixMonotone(sizes, r2.0, r1.0 - 1);
      }
    }
  }

  /** Every node is some index's answer: satellite `id` of 1-based shell `k`
      is index `Prefix(k - 1) + id`, ground station `id` is `Total + id`. */
  lemma NodeInfoOfNode(sizes: seq<nat>, k: int, id: int)
    requires (1 <= k <= |sizes| && 0 <= id < sizes[k - 1]) || (k == 0 && id >= 0)
    ensures k >= 1 ==> IsNodeInfo(sizes, Prefix(sizes, k - 1) + id, (k, id))
    ensures k == 0 ==> IsNodeInfo(sizes, Total(sizes) + id, (0, id))
  {
    if k >= 1 {
      PrefixBelowTotal(sizes, k - 1);
    }
  }

  /** The global index `get_route_path` gives a segment's target: a satellite
      (shell > 0) counts the satellites of the shells before its 1-based shell;
      anything else is a ground station behind all satellites. None when the
      shell is past the last shell by more than one, where the shell lookup
      raises. */
  function TargetIndex(sizes: seq<nat>, shell: int, id: int): Option<int>
  {
    if shell > 0 then
      if shell - 1 <= |sizes| then Some(Prefix(sizes, shell - 1) + id) else None
    else Some(Total(sizes) + id)
  }

  /** The loop adding up the satellite counts of the shells before `shell`. */
  method SegmentIndex(sizes: seq<nat>, shell: int, id: int) returns (r: Option<int>)
    ensures r == TargetIndex(sizes, shell, id)
  {
    if shell > 0 {
      var g := id;
      var s := 0;
      while s < shell - 1
        invariant 0 <= s <= shell - 1 && s <= |sizes|
        invariant g == id + Prefix(sizes, s)
      {
        if s >= |sizes| {
          return None;
        }
        g := g + sizes[s];
        s := s + 1;
      }
      return Some(g);
    }
    return Some(Total(sizes) + id);
  }

  /** The target formula inverts `_get_node_info` for every index. */
  lemma TargetIndexInvertsNodeInfo(sizes: seq<nat>, idx: int, r: (int, int))
    requires IsNodeInfo(sizes, idx, r)
    ensures TargetIndex(sizes, r.0, r.1) == Some(idx)
  {
  }

  /** A segment the path conversion reads: it has both a `source` and a
      `target` key. */
  predicate Complete(s: Segment)
  {
    s.source.Some? && s.target.Some?
  }

  /** The global indices of the targets of the complete segments, in order;
      None when one of them raises. */
  function SegmentNodes(sizes: seq<nat>, items: seq<Segment>): Option<seq<int>>
  {
    if items == [] then Some([])
    else
      var init := SegmentNodes(sizes, items[..|items| - 1]);
      var last := items[|items| - 1];
      if init.None? then None
      else if !Complete(last) then init
      else match TargetIndex(sizes, TargetShell(last), TargetId(last))
        case None => None
        case Some(g) => Some(init.value + [g])
  }

  /** The fix-up at the end of `get_route_path`: a path with the source alone
      gets the target appended, and so does a path ending elsewhere. */
  function EndAtTarget(path: seq<int>, target: int): seq<int>
  {
    if |path| < 2 then path + [target]
    else if path[|path| - 1] != target then path + [target]
    else path
  }

  /** `get_route_path` for a request from `source` to `target`, given the
      outcome of the path-service request. */
  function RoutePath(sizes: seq<nat>, source: int, target: int, fetch: HttpResult): seq<int>
  {
    if source == target then [source]
    else match fetch
      case Failed => [source, target]
      case Body(r) =>
        if r.segments.Missing? || r.blocked || r.segments.Null? then [source, target]
        else
          var items := if r.segments.List? then r.segments.items else [];
          match SegmentNodes(sizes, items)
          case None => [source, target]
          case Some(nodes) => EndAtTarget([source] + nodes, target)
  }

  /** A path-service request: the two nodes as `(shell, id)` pairs. */
  datatype PathRequest = PathRequest(source: (int, int), target: (int, int))

  /** `get_route_path`. No request is made when source and target coincide;
      otherwise the request names both nodes as `_get_node_info` reads them,
      and the path is built from the reply by walking its segments. */
  method GetRoutePath(sizes: seq<nat>, source: int, target: int, fetch: HttpResult)
    returns (request: Option<PathRequest>, path: seq<int>)
    ensures request.None? <==> source == target
    ensures request.Some? ==> IsNodeInfo(sizes, source, request.value.source) &&
                              IsNodeInfo(sizes, target, request.value.target)
    ensures path == RoutePath(sizes, source, target, fetch)
  {
    if source == target {
      return None, [source];
    }
    var s := GetNodeInfo(sizes, source);
    var t := GetNodeInfo(sizes, target);
    request := Some(PathRequest(s, t));
    if fetch.Failed? {
      return request, [source, target];
    }
    var r := fetch.reply;
    if r.segments.Missing? || r.blocked || r.segments.Null? {
      return request, [source, target];
    }
    var items := if r.segments.List? then r.segments.items else [];
    path := [source];
    var i := 0;
    while i < |items|
      invariant 0 <= i <= |items|
      invariant SegmentNodes(sizes, items[..i]).Some?
      invariant path == [source] + SegmentNodes(sizes, items[..i]).value
    {
      assert items[..i + 1][..i] == items[..i];
      var seg := items[i];
      if Complete(seg) {
        var g := SegmentIndex(sizes, TargetShell(seg), TargetId(seg));
        if g.None? {
          assert SegmentNodes(sizes, items[..i + 1]).None?;
          assert SegmentNodes(sizes, items).None? by {
            NoneSticks(sizes, items, i + 1);
          }
          return request, [source, target];
        }
        path := path + [g.value];
      }
      i := i + 1;
    }
    assert items[..i] == items;
    path := EndAtTarget(path, target);
  }

  /** Once a prefix of the segments raises, the whole list does. */
  lemma {:induction false} NoneSticks(sizes: seq<nat>, items: seq<Segment>, n: nat)
    requires n <= |items| && SegmentNodes(sizes, items[..n]).None?
    ensures SegmentNodes(sizes, items).None?
    decreases |items| - n
  {
    if n < |items| {
      assert items[..n + 1][..n] == items[..n];
      NoneSticks(sizes, items, n + 1);
    } else {
      assert items[..n] == items;
    }
  }

  /** A path for two distinct nodes starts at the source, ends at the target
      and has at least two nodes; a path from a node to itself is that node. */
  lemma RoutePathEnds(sizes: seq<nat>, source: int, target: int, fetch: HttpResult)
    ensures var p := RoutePath(sizes, source, target, fetch);
            (source == target ==> p == [source]) &&
            (source != target ==> |p| >= 2 && p[0] == source && p[|p| - 1] == target)
  {
  }

  /** A failed request, a blocked path, or a reply whose `segments` is
      missing or `null` gives the direct path. */
  lemma RoutePathDefaults(sizes: seq<nat>, source: int, target: int, fetch: HttpResult)
    requires source != target
    requires fetch.Failed? || fetch.reply.blocked || fetch.reply.segments.Missing? ||
             fetch.reply.segments.Null?
    ensures RoutePath(sizes, source, target, fetch) == [source, target]
  {
  }

  /** A segment lacking its `source` or `target` key adds no node. */
  lemma IncompleteSegmentSkipped(sizes: seq<nat>, items: seq<Segment>, s: Segment)
    requires !Complete(s)
    ensures SegmentNodes(sizes, items + [s]) == SegmentNodes(sizes, items)
  {
    assert (items + [s])[..|items|] == items;
  }

  /** When the path service answers with the nodes `_get_node_info` gives for
      the indices `gs`, the path lists exactly those indices, in order, after
      the source. */
  lemma {:induction false} SegmentNodesOfNodeInfos(sizes: seq<nat>, items: seq<Segment>, gs: seq<int>)
    requires |items| == |gs|
    requires forall i | 0 <= i < |items| ::
               Complete(items[i]) && IsNodeInfo(sizes, gs[i], (TargetShell(items[i]), TargetId(items[i])))
    ensures SegmentNodes(sizes, items) == Some(gs)
  {
    if items != [] {
      var n := |items| - 1;
      SegmentNodesOfNodeInfos(sizes, items[..n], gs[..n]);
      TargetIndexInvertsNodeInfo(sizes, gs[n], (TargetShell(items[n]), TargetId(items[n])));
      assert gs[..n] + [gs[n]] == gs;
    }
  }

  /** The value `int(..)` makes of a message member: an integer, or a failure. */
  datatype Scalar = Int(i: int) | NotInt

  /** A control message: not a dictionary, or one with its `type`, `source` and
      `target` members, each possibly absent. */
  datatype ControlMsg = NotDict | Dict(kind: Option<string>, source: Option<Scalar>, target: Option<Scalar>)

  /** The `route` message sent back to the animation. */
  datatype RouteResponse = RouteResponse(source: int, target: int, path: seq<int>)

  /** `_create_fallback_response`: the direct path between the two nodes. */
  function FallbackResponse(source: int, target: int): (r: RouteResponse)
    ensures r.source == source && r.target == target && r.path == [source, target]
  {
    RouteResponse(source, target, [source, target])
  }

  /** A well-formed route request: a dictionary of type `get_route` whose
      `source` and `target` both read as integers. */
  predicate RouteRequest(msg: ControlMsg)
  {
    msg.Dict? && msg.kind == Some("get_route") &&
    msg.source.Some? && msg.source.value.Int? && msg.target.Some? && msg.target.value.Int?
  }

  /** `handle_control_message`. Anything but a well-formed route request is
      refused. For a route request the path (replaced by the direct one when
      shorter than two nodes) is sent; when that send fails the fallback
      response is sent instead, and the message counts as handled when one of
      the two sends succeeds. */
  method HandleControlMessage(sizes: seq<nat>, msg: ControlMsg, fetch: HttpResult,
                              sendOk: bool, retryOk: bool)
    returns (handled: bool, sent: Option<RouteResponse>)
    ensures handled <==> RouteRequest(msg) && (sendOk || retryOk)
    ensures handled == sent.Some?
    ensures handled ==>
              var s, t := msg.source.value.i, msg.target.value.i;
              sent.value.source == s && sent.value.target == t &&
              |sent.value.path| >= 2 && sent.value.path[0] == s &&
              sent.value.path[|sent.value.path| - 1] == t &&
              (sendOk ==> sent.value.path == (if s == t then [s, t] else RoutePath(sizes, s, t, fetch))) &&
              (!sendOk ==> sent.value == FallbackResponse(s, t))
  {
    if !msg.Dict? || msg.kind.None? || msg.kind.value != "get_route" {
      return false, None;
    }
    if msg.source.None? || msg.target.None? || msg.source.value.NotInt? || msg.target.value.NotInt? {
      return false, None;
    }
    var source, target := msg.source.value.i, msg.target.value.i;
    var _, path := GetRoutePath(sizes, source, target, fetch);
    RoutePathEnds(sizes, source, target, fetch);
    if |path| < 2 {
      path := [source, target];
    }
    if sendOk {
      return true, Some(RouteResponse(source, target, path));
    }
    if retryOk {
      return true, Some(FallbackResponse(source, target));
    }
    return false, None;
  }
}
