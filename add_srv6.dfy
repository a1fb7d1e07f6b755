/** The one-shot validator script: it fetches a path, lists the path's node
    addresses (the first segment's source, then every segment's target) and
    builds the command
    `ip -6 route add <last target> encap seg6 mode encap segs <inner> dev eth0`,
    where `<inner>` are the addresses strictly between the first and the last. */
module AddSrv6 {
  import opened Common
  import opened AddressCodec
  import opened PathJson
  import opened PathProcessing

  /** `calculate_ips`: the IPv4 text (decimal octets) and the IPv6 text of one
      node, built from the same four bytes. */
  function CalculateIps(shell: int, id: int): (r: (seq<int>, Addr))
    ensures |r.0| == 4 && |r.1| == 6
    ensures forall i | 0 <= i < 4 :: r.1[2 + i] == Hex(r.0[i])
  {
    (CalculateIpv4(shell, id), CalculateIp(shell, id))
  }

  /** A node reference the script can read: `shell` and `id` both present
      (`source["shell"]` and `source["id"]` raise otherwise). */
  predicate Readable(n: Option<NodeRef>)
  {
    n.Some? && n.value.shell.Some? && n.value.id.Some?
  }

  function Label(n: Option<NodeRef>): (int, int)
    requires Readable(n)
  {
    (n.value.shell.value, n.value.id.value)
  }

  /** Every segment must have both keys (`segment["source"]` and
      `segment["target"]` are read for each one); every target must carry shell
      and id, and so must the first segment's source. */
  predicate ReadableSegments(items: seq<Segment>)
  {
    forall i | 0 <= i < |items| ::
      items[i].source.Some? && Readable(items[i].target) && (i == 0 ==> Readable(items[i].source))
  }

  /** The node labels the loop collects: the first source, then each target.
      `ipv6_segs` holds the addresses of these labels. */
  function PathLabels(items: seq<Segment>): seq<(int, int)>
    requires ReadableSegments(items)
  {
    if items == [] then []
    else [Label(items[0].source)] + seq(|items|, i requires 0 <= i < |items| => Label(items[i].target))
  }

  function LabelAddr(l: (int, int)): Addr
  {
    CalculateIp(l.0, l.1)
  }

  /** `ipv6_segs`: the addresses of the path's nodes. */
  function PathAddrs(items: seq<Segment>): seq<Addr>
    requires ReadableSegments(items)
  {
    var labels := PathLabels(items);
    seq(|labels|, i requires 0 <= i < |labels| => LabelAddr(labels[i]))
  }

  /** The loop of `execute_command`: None when a key is missing (the exception
      is caught and the script stops), otherwise the labels and addresses of
      the path's nodes. */
  method CollectPath(items: seq<Segment>) returns (ok: bool, path: seq<(int, int)>, addrs: seq<Addr>)
    ensures ok == ReadableSegments(items)
    ensures ok ==> path == PathLabels(items)
    ensures ok ==> |addrs| == |path| && forall i | 0 <= i < |path| :: addrs[i] == LabelAddr(path[i])
  {
    path, addrs := [], [];
    var i := 0;
    while i < |items|
      invariant 0 <= i <= |items|
      invariant ReadableSegments(items[..i])
      invariant i == 0 ==> path == []
      invariant i > 0 ==> path == [Label(items[0].source)] + seq(i, j requires 0 <= j < i => Label(items[j].target))
      invariant |addrs| == |path| && forall j | 0 <= j < |path| :: addrs[j] == LabelAddr(path[j])
    {
      var seg := items[i];
      if seg.source.None? || !Readable(seg.target) || (i == 0 && !Readable(seg.source)) {
        assert !ReadableSegments(items) by {
          assert !(seg.source.Some? && Readable(seg.target) && (i == 0 ==> Readable(seg.source)));
        }
        return false, [], [];
      }
      if i == 0 {
        var s := Label(seg.source);
        path := path + [s];
        addrs := addrs + [LabelAddr(s)];
      }
      var t := Label(seg.target);
      path := path + [t];
      addrs := addrs + [LabelAddr(t)];
      assert items[..i + 1] == items[..i] + [seg];
      i := i + 1;
    }
    assert items[..i] == items;
    ok := true;
  }

  /** What the script does: no command (an error is reported) or the route
      command with its destination and inner segment list. */
  datatype Outcome = Error | RouteAdd(dest: Addr, segs: seq<Addr>)

  /** `execute_command` on the reply's `segments`. A missing member reads as
      an empty list; `null` or another non-list value fails in the loop. An
      empty path fails at `ipv6_segs[-1]`. */
  method ExecuteCommand(segments: SegmentsField) returns (o: Outcome)
    ensures o.RouteAdd? <==> segments.List? && |segments.items| >= 1 && ReadableSegments(segments.items)
    ensures o.RouteAdd? ==>
              var addrs := PathAddrs(segments.items);
              o.dest == addrs[|addrs| - 1] && o.segs == addrs[1..|addrs| - 1]
  {
    if segments.Null? || segments.NotAList? {
      return Error;
    }
    var items := if segments.List? then segments.items else [];
    var ok, path, addrs := CollectPath(items);
    if !ok || |addrs| == 0 {
      return Error;
    }
    o := RouteAdd(addrs[|addrs| - 1], addrs[1..|addrs| - 1]);
  }

  /** For n segments the path lists n + 1 nodes: the first source, then every
      target in order. */
  lemma PathLabelsShape(items: seq<Segment>)
    requires ReadableSegments(items) && |items| >= 1
    ensures |PathLabels(items)| == |items| + 1
    ensures PathLabels(items)[0] == Label(items[0].source)
    ensures forall i | 0 <= i < |items| :: PathLabels(items)[i + 1] == Label(items[i].target)
  {
  }

  /** The script installs the same route the route manager would: its
      destination is the last target and its inner segments are the targets of
      all segments but the last, as `_process_path` yields them. */
  lemma PathAddrsAt(items: seq<Segment>, i: int)
    requires ReadableSegments(items) && 0 <= i < |items|
    ensures |PathAddrs(items)| == |items| + 1
    ensures PathAddrs(items)[i + 1] == TargetAddr(items[i])
  {
    PathLabelsShape(items);
    assert Readable(items[i].target);
  }

  lemma AgreesWithRouteManager(items: seq<Segment>)
    requires ReadableSegments(items)
    requires ProcessPathSpec(PathReply(List(items), false)).final.Some?
    ensures var addrs := PathAddrs(items);
            var p := ProcessPathSpec(PathReply(List(items), false));
            |addrs| >= 2 && p.final.value == addrs[|addrs| - 1] && p.hops == addrs[1..|addrs| - 1]
  {
    var addrs := PathAddrs(items);
    var p := ProcessPathSpec(PathReply(List(items), false));
    AcceptedHopsInOrder(items, false, WrittenIdLimit);
    PathAddrsAt(items, |items| - 1);
    forall i | 0 <= i < |items| - 1
      ensures p.hops[i] == addrs[1..|addrs| - 1][i]
    {
      PathAddrsAt(items, i);
    }
  }
}
