/** How the route manager turns a path-service reply into an SRv6 route:
    `_build_path_url` names the destination node, `_process_path` and
    `_get_final_ip` turn the reply's segment list into the destination address
    and the list of intermediate segment addresses. */
module PathProcessing {
  import opened Common
  import opened AddressCodec
  import opened PathJson

  /** The path query `/path/<shell>/<id>/<shell>/<id>`: the node itself and the
      node decoded from the destination address. */
  datatype PathQuery = PathQuery(src: NodeId, dst: NodeId)

  function BuildPathUrl(self: NodeId, dest: Addr): PathQuery
  {
    PathQuery(self, IpToNodeId(dest))
  }

  /** Asking for the path to a node's own address names that node, for every
      node whose id fits the address. */
  lemma QueryNamesDestination(self: NodeId, n: NodeId)
    requires 0 <= n.id < IdSpace
    ensures BuildPathUrl(self, CalculateIp(n.shell, n.id)) == PathQuery(self, n)
  {
    RoundTrip(n.shell, n.id);
  }

  /** The id bound the intermediate-node check uses as written (`id <= 0xFFFF`). */
  const WrittenIdLimit: int := 0xFFFF

  /** The id bound the check is evidently meant to enforce: ids the address can
      carry, below 2^14. */
  const IntendedIdLimit: int := IdSpace - 1

  /** The validity check on an intermediate node: a one-byte shell and an id no
      larger than `idLimit`. */
  predicate HopInRange(shell: int, id: int, idLimit: int)
  {
    0 <= shell <= 255 && 0 <= id <= idLimit
  }

  predicate SegmentInRange(s: Segment, idLimit: int)
  {
    HopInRange(TargetShell(s), TargetId(s), idLimit)
  }

  /** The address of a segment's target node. */
  function TargetAddr(s: Segment): Addr
  {
    CalculateIp(TargetShell(s), TargetId(s))
  }

  /** The result of `_process_path`: the destination address (None when the
      reply is rejected) and the intermediate segment addresses. */
  datatype Processed = Processed(final: Option<Addr>, hops: seq<Addr>)

  /** `_process_path` with the intermediate-node id bound as a parameter. The
      reply is rejected as a whole (None and no hops) when `segments` is
      missing, empty, `null` or not a list, when any intermediate target is out
      of range, or when the last target's address is not a valid IPv6 address.
      Otherwise every segment but the last contributes its target's address, in
      order, and the last target is the destination. */
  function ProcessWith(r: PathReply, idLimit: int): Processed
  {
    match r.segments
    case List(items) =>
      if |items| == 0 then Processed(None, [])
      else if exists i | 0 <= i < |items| - 1 :: !SegmentInRange(items[i], idLimit) then
        Processed(None, [])
      else if !IsIPv6(TargetAddr(items[|items| - 1])) then Processed(None, [])
      else
        Processed(Some(TargetAddr(items[|items| - 1])),
                  seq(|items| - 1, i requires 0 <= i < |items| - 1 => TargetAddr(items[i])))
    case _ => Processed(None, [])
  }

  /** `_process_path` as written. */
  function ProcessPathSpec(r: PathReply): Processed
  {
    ProcessWith(r, WrittenIdLimit)
  }

  /** `_process_path` with the id bound it evidently intends, as the
      corrected route manager runs it. */
  function ProcessPathIntended(r: PathReply): Processed
  {
    ProcessWith(r, IntendedIdLimit)
  }

  /** The loop of `_process_path` (and `_get_final_ip` for the last segment). */
  method ProcessPath(r: PathReply, idLimit: int) returns (final: Option<Addr>, hops: seq<Addr>)
    ensures Processed(final, hops) == ProcessWith(r, idLimit)
  {
    if !r.segments.List? || |r.segments.items| < 1 {
      return None, [];
    }
    var items := r.segments.items;
    var n := |items| - 1;
    hops := [];
    var i := 0;
    while i < n
      invariant 0 <= i <= n
      invariant forall j | 0 <= j < i :: SegmentInRange(items[j], idLimit)
      invariant hops == seq(i, j requires 0 <= j < i => TargetAddr(items[j]))
    {
      var shell, id := TargetShell(items[i]), TargetId(items[i]);
      if !(0 <= shell <= 255 && 0 <= id <= idLimit) {
        assert !SegmentInRange(items[i], idLimit);
        return None, [];
      }
      // The IPv6 check the source makes on each hop always passes here
      // (see HopsAreIPv6), so it has no branch of its own.
      hops := hops + [CalculateIp(shell, id)];
      i := i + 1;
    }
    var last := TargetAddr(items[n]);
    if !IsIPv6(last) {
      return None, [];
    }
    final := Some(last);
  }

  /** A reply is accepted or rejected as a whole: a rejected reply yields no
      hops, an accepted one yields one hop per segment but the last, each an
      address of the managed prefix that is a valid IPv6 address, and a
      destination that is one as well. */
  lemma ProcessedShape(r: PathReply, idLimit: int)
    ensures var p := ProcessWith(r, idLimit);
            (p.final.None? ==> p.hops == []) &&
            (p.final.Some? ==>
               r.segments.List? && |r.segments.items| >= 1 &&
               |p.hops| == |r.segments.items| - 1 &&
               IsIPv6(p.final.value) && InManagedPrefix(p.final.value) &&
               forall i | 0 <= i < |p.hops| :: IsIPv6(p.hops[i]) && InManagedPrefix(p.hops[i]))
  {
    var p := ProcessWith(r, idLimit);
    if p.final.Some? {
      var items := r.segments.items;
      forall i | 0 <= i < |p.hops|
        ensures IsIPv6(p.hops[i])
      {
        assert SegmentInRange(items[i], idLimit);
        EncodedIsIPv6(TargetShell(items[i]), TargetId(items[i]));
      }
    }
  }

  /** An accepted reply names the last segment's target as destination and
      lists the targets of all other segments, in order, as hops. */
  lemma AcceptedHopsInOrder(items: seq<Segment>, blocked: bool, idLimit: int)
    requires ProcessWith(PathReply(List(items), blocked), idLimit).final.Some?
    ensures var p := ProcessWith(PathReply(List(items), blocked), idLimit);
            |items| >= 1 &&
            p.final.value == TargetAddr(items[|items| - 1]) &&
            |p.hops| == |items| - 1 &&
            forall i | 0 <= i < |items| - 1 :: p.hops[i] == TargetAddr(items[i])
  {
  }

  /** Every hop the range check lets through has a valid IPv6 address, so the
      source's second check on hops never fires. */
  lemma HopsAreIPv6(s: Segment, idLimit: int)
    requires SegmentInRange(s, idLimit)
    ensures IsIPv6(TargetAddr(s))
  {
    EncodedIsIPv6(TargetShell(s), TargetId(s));
  }

  /** The destination is accepted exactly when the last target's shell fits a
      16-bit group (and the reply is otherwise accepted). */
  lemma FinalAcceptedIff(items: seq<Segment>, idLimit: int)
    requires |items| >= 1
    requires forall i | 0 <= i < |items| - 1 :: SegmentInRange(items[i], idLimit)
    ensures ProcessWith(PathReply(List(items), false), idLimit).final.Some?
            <==> 0 <= TargetShell(items[|items| - 1]) <= 0xFFFF
  {
    EncodedIsIPv6(TargetShell(items[|items| - 1]), TargetId(items[|items| - 1]));
  }

  /** With the intended bound every hop and the destination decode back to the
      very node the path service named, so the installed segment list visits
      exactly the nodes of the path. */
  lemma IntendedHopsRoundTrip(r: PathReply)
    requires ProcessPathIntended(r).final.Some?
    ensures var p := ProcessPathIntended(r);
            var items := r.segments.items;
            forall i | 0 <= i < |p.hops| ::
              IpToNodeId(p.hops[i]) == NodeId(TargetShell(items[i]), TargetId(items[i]))
  {
    var p := ProcessPathIntended(r);
    var items := r.segments.items;
    forall i | 0 <= i < |p.hops|
      ensures IpToNodeId(p.hops[i]) == NodeId(TargetShell(items[i]), TargetId(items[i]))
    {
      assert SegmentInRange(items[i], IntendedIdLimit);
      RoundTrip(TargetShell(items[i]), TargetId(items[i]));
    }
  }

  /** The intended bound only rejects more: any reply it accepts is accepted by
      the written check with the same result. */
  lemma IntendedRefinesWritten(r: PathReply)
    requires ProcessPathIntended(r).final.Some?
    ensures ProcessPathSpec(r) == ProcessPathIntended(r)
  {
    var items := r.segments.items;
    forall i | 0 <= i < |items| - 1
      ensures SegmentInRange(items[i], WrittenIdLimit)
    {
      assert SegmentInRange(items[i], IntendedIdLimit);
    }
  }

  function Hop(shell: int, id: int): Segment
  {
    Segment(None, Some(NodeRef(Some(shell), Some(id))))
  }

  /** As written, an intermediate node with id 16384 passes the check, and its
      segment address is that of node (1, 0): the route is steered through a
      node the path never named. */
  lemma WrittenCheckAdmitsAliasedHop()
    ensures var r := PathReply(List([Hop(1, 16384), Hop(1, 5)]), false);
            var p := ProcessPathSpec(r);
            p.final == Some(CalculateIp(1, 5)) &&
            p.hops == [CalculateIp(1, 0)] &&
            IpToNodeId(p.hops[0]) != NodeId(1, 16384) &&
            ProcessPathIntended(r).final.None?
  {
    var r := PathReply(List([Hop(1, 16384), Hop(1, 5)]), false);
    EncodeCollision(1, 0, 1);
    EncodedIsIPv6(1, 5);
    RoundTrip(1, 0);
    assert !SegmentInRange(Hop(1, 16384), IntendedIdLimit);
  }
}
