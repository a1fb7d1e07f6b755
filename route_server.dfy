/** The route-report server: it receives the routes the route managers
    install (`POST /api/route`), keeps the latest one per source/destination
    pair, answers a status query (`GET /api/status`) with the number of pairs
    it holds, and forwards each route to the animation as node numbers decoded
    from the addresses. */
module RouteServer {
  import opened Common
  import opened AddressCodec
  import opened PathJson

  /** A numeric field of the address; a field left empty by `::` reads as 0. */
  function FieldValue(f: Field): int
  {
    if f.Hex? then f.v else 0
  }

  /** `_parse_ipv6_to_node_info`, applied to an address in the canonical form
      `str(IPv6Address(..))` prints (the form the route managers send): an
      invalid address, one outside fd00::/16, or one with fewer than four
      fields reads as node `(0, 0)`; otherwise the shell and id are rebuilt from
      the last three fields as the route manager's decoder does. */
  function ParseNodeInfo(a: Addr): (r: (int, int))
    ensures !IsIPv6(a) || !InManagedPrefix(a) || |a| < 4 ==> r == (0, 0)
  {
    if !IsIPv6(a) || !InManagedPrefix(a) || |a| < 4 then (0, 0)
    else
      var parts := a[|a| - 4..];
      (FieldValue(parts[1]), Or(FieldValue(parts[2]) * 64, (FieldValue(parts[3]) - 2) / 4))
  }

  /** An encoder-built address with a 16-bit shell reads back as its shell and
      the low 14 bits of its id. */
  lemma ParseEncoded(shell: int, id: int)
    requires 0 <= shell <= 0xFFFF
    ensures ParseNodeInfo(CalculateIp(shell, id)) == (shell, id % IdSpace)
  {
    EncodedIsIPv6(shell, id);
    DecodeEncode(shell, id);
  }

  /** An encodable node reads back exactly. */
  lemma ParseEncodable(shell: int, id: int)
    requires 0 <= shell <= 0xFFFF && 0 <= id < IdSpace
    ensures ParseNodeInfo(CalculateIp(shell, id)) == (shell, id)
  {
    var low := id % IdSpace;
    assert low == id;
    ParseEncoded(shell, id);
  }

  /** Where both decoders read a complete address they agree: the server's
      reading of an fd00::/16 address is the route manager's `_ip_to_node_id`. */
  lemma ParseAgreesWithDecoder(a: Addr)
    requires IsIPv6(a) && InManagedPrefix(a) && |a| >= 4
    requires a[|a| - 3].Hex? && a[|a| - 2].Hex? && a[|a| - 1].Hex?
    ensures ParseNodeInfo(a) == (IpToNodeId(a).shell, IpToNodeId(a).id)
  {
  }

  /** The text `""`, the default address, splits into one empty field. */
  const NoAddr: Addr := [Empty]

  lemma NoAddrReadsAsOrigin()
    ensures ParseNodeInfo(NoAddr) == (0, 0)
  {
    assert !IsIPv6(NoAddr);
  }

  /** The members of a posted route object, each possibly absent. */
  datatype RoutePost = RoutePost(source: Option<Addr>, destination: Option<Addr>,
                                 segments: Option<seq<Addr>>, timestamp: Option<real>,
                                 nodeInfo: Option<NodeRef>)

  /** `SRv6RouteData`. An empty or absent `node_info` is None. */
  datatype RouteData = RouteData(sourceIp: Addr, destinationIp: Addr, segments: seq<Addr>,
                                 timestamp: real, nodeInfo: Option<NodeRef>)

  /** The constructor: absent members default to `""`, `[]`, the current
      time and no node info. */
  function FromPost(p: RoutePost, now: real): RouteData
  {
    RouteData(p.source.GetOr(NoAddr), p.destination.GetOr(NoAddr), p.segments.GetOr([]),
              p.timestamp.GetOr(now), p.nodeInfo)
  }

  /** `get_source_node_info`: the reported node info when it has both shell
      and id, otherwise the node read from the source address. */
  function SourceNodeInfo(d: RouteData): (int, int)
  {
    if d.nodeInfo.Some? && d.nodeInfo.value.shell.Some? && d.nodeInfo.value.id.Some? then
      (d.nodeInfo.value.shell.value, d.nodeInfo.value.id.value)
    else ParseNodeInfo(d.sourceIp)
  }

  function DestinationNodeInfo(d: RouteData): (int, int)
  {
    ParseNodeInfo(d.destinationIp)
  }

  /** `get_segment_node_infos`: one node per segment address, in order. */
  function SegmentNodeInfos(d: RouteData): (r: seq<(int, int)>)
    ensures |r| == |d.segments|
    ensures forall i | 0 <= i < |r| :: r[i] == ParseNodeInfo(d.segments[i])
  {
    seq(|d.segments|, i requires 0 <= i < |d.segments| => ParseNodeInfo(d.segments[i]))
  }

  /** A post that leaves out the optional members reads as a route from node
      `(0, 0)` to node `(0, 0)` with no segments, stamped now. */
  lemma DefaultsReadAsOrigin(now: real)
    ensures var d := FromPost(RoutePost(None, None, None, None, None), now);
            SourceNodeInfo(d) == (0, 0) && DestinationNodeInfo(d) == (0, 0) &&
            SegmentNodeInfos(d) == [] && d.timestamp == now
  {
    NoAddrReadsAsOrigin();
  }

  /** The `srv6_route` message forwarded to the animation. */
  datatype RouteMsg = RouteMsg(source: (int, int), target: (int, int),
                               segments: seq<(int, int)>, timestamp: real)

  function RouteMessage(d: RouteData): RouteMsg
  {
    RouteMsg(SourceNodeInfo(d), DestinationNodeInfo(d), SegmentNodeInfos(d), d.timestamp)
  }

  predicate Addressable(n: NodeId)
  {
    0 <= n.shell <= 0xFFFF && 0 <= n.id < IdSpace
  }

  /** What the route manager posts for a route from node `src` to `dst` through
      `hops`: its own node info and the addresses of the destination and of
      the hops. */
  function ManagerPost(src: NodeId, dst: NodeId, hops: seq<NodeId>, ts: real): RoutePost
  {
    RoutePost(Some(CalculateIp(src.shell, src.id)), Some(CalculateIp(dst.shell, dst.id)),
              Some(seq(|hops|, i requires 0 <= i < |hops| => CalculateIp(hops[i].shell, hops[i].id))),
              Some(ts), Some(NodeRef(Some(src.shell), Some(src.id))))
  }

  /** The message forwarded for such a post names exactly the route's nodes:
      the source, the destination and every hop, in order. */
  lemma RelayedRouteNamesItsNodes(src: NodeId, dst: NodeId, hops: seq<NodeId>, ts: real, now: real)
    requires Addressable(dst) && forall i | 0 <= i < |hops| :: Addressable(hops[i])
    ensures var m := RouteMessage(FromPost(ManagerPost(src, dst, hops, ts), now));
            m.source == (src.shell, src.id) && m.target == (dst.shell, dst.id) &&
            |m.segments| == |hops| &&
            (forall i | 0 <= i < |hops| :: m.segments[i] == (hops[i].shell, hops[i].id)) &&
            m.timestamp == ts
  {
    var d := FromPost(ManagerPost(src, dst, hops, ts), now);
    ParseEncodable(dst.shell, dst.id);
    HopsReadBack(d, hops);
  }

  lemma HopsReadBack(d: RouteData, hops: seq<NodeId>)
    requires forall i | 0 <= i < |hops| :: Addressable(hops[i])
    requires d.segments == seq(|hops|, i requires 0 <= i < |hops| => CalculateIp(hops[i].shell, hops[i].id))
    ensures forall i | 0 <= i < |hops| :: SegmentNodeInfos(d)[i] == (hops[i].shell, hops[i].id)
  {
    forall i | 0 <= i < |hops|
      ensures SegmentNodeInfos(d)[i] == (hops[i].shell, hops[i].id)
    {
      assert d.segments[i] == CalculateIp(hops[i].shell, hops[i].id);
      ParseEncodable(hops[i].shell, hops[i].id);
    }
  }

  /** The key `"<source>-><destination>"` a route is stored under; addresses
      contain no `-` or `>`, so the pair determines the key and back. */
  datatype RouteKey = RouteKey(source: Addr, destination: Addr)

  function KeyOf(d: RouteData): RouteKey
  {
    RouteKey(d.sourceIp, d.destinationIp)
  }

  /** A request body: not UTF-8, not JSON, JSON that is not an object, or a
      route object. */
  datatype PostBody = NotUtf8 | BadJson | NotObject | Object(post: RoutePost)

  /** Storing a route replaces the entry of its pair, so the count grows only
      for a new pair. */
  lemma StoreCount(m: map<RouteKey, RouteData>, k: RouteKey, d: RouteData)
    ensures |m[k := d]| == if k in m then |m| else |m| + 1
  {
    if k in m {
      assert m[k := d].Keys == m.Keys;
    } else {
      assert m[k := d].Keys == m.Keys + {k};
    }
  }

  /** `SRv6RouteHandler` with its class-level store `recent_routes`. */
  class RouteHandler {
    var recent: map<RouteKey, RouteData>

    constructor ()
      ensures recent == map[]
    {
      recent := map[];
    }

    /** `do_GET`: the status path answers 200 with the number of stored pairs,
        every other path 404. */
    method DoGet(path: string) returns (status: int, routesCount: nat)
      ensures path == "/api/status" ==> status == 200 && routesCount == |recent|
      ensures path != "/api/status" ==> status == 404
    {
      if path == "/api/status" {
        return 200, |recent|;
      }
      return 404, 0;
    }

    /** `do_POST`. Only `/api/route` is served (404 otherwise). A body that is
        not JSON answers 400, and one that cannot be read as a route object
        with `source` and `destination` (the log line reads both) answers 500;
        neither stores anything. Otherwise the route is stored under its pair,
        replacing an older one, the message is forwarded when the animation is
        connected, and the answer is 200. */
    method DoPost(path: string, body: PostBody, now: real, connected: bool)
      returns (status: int, sent: Option<RouteMsg>)
      modifies this
      ensures path != "/api/route" ==> status == 404 && recent == old(recent) && sent.None?
      ensures path == "/api/route" && body.BadJson? ==> status == 400 && recent == old(recent) && sent.None?
      ensures path == "/api/route" && (body.NotUtf8? || body.NotObject? ||
                (body.Object? && (body.post.source.None? || body.post.destination.None?))) ==>
                status == 500 && recent == old(recent) && sent.None?
      ensures path == "/api/route" && body.Object? && body.post.source.Some? && body.post.destination.Some? ==>
                var d := FromPost(body.post, now);
                status == 200 && recent == old(recent)[KeyOf(d) := d] &&
                sent == (if connected then Some(RouteMessage(d)) else None)
    {
      if path != "/api/route" {
        return 404, None;
      }
      match body
      case BadJson =>
        return 400, None;
      case NotUtf8 =>
        return 500, None;
      case NotObject =>
        return 500, None;
      case Object(post) =>
        if post.source.None? || post.destination.None? {
          return 500, None;
        }
        var d := FromPost(post, now);
        recent := recent[KeyOf(d) := d];
        sent := if connected then Some(RouteMessage(d)) else None;
        status := 200;
    }
  }
}
