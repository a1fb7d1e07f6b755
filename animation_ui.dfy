/** The visualiser's user interface as far as routing goes: the addresses it
    shows for a picked node, and the right click that selects the source and
    then the target of a route. Picking (the screen-distance search over
    satellites, then ground stations) is abstracted into the node it finds. */
module AnimationUi {
  import opened Common
  import opened AddressCodec
  import opened Constellation
  import opened RouteServer
  import opened Animation

  /** The IPv6 address the interface shows for a pick: a satellite of 0-based
      shell `s` is addressed with shell identifier `s + 1`, a ground station
      with shell 0. */
  function NodeAddress(p: Pick): Addr
  {
    match p
    case Satellite(s, id) => CalculateIp(s + 1, id)
    case GroundStation(id) => CalculateIp(0, id)
  }

  /** `calculateIPv4` for the same pick. */
  function NodeAddressV4(p: Pick): seq<int>
  {
    match p
    case Satellite(s, id) => CalculateIpv4(s + 1, id)
    case GroundStation(id) => CalculateIpv4(0, id)
  }

  /** A node whose address the route reports can carry: a 16-bit shell
      identifier and an id below 2^14. */
  predicate AddressablePick(p: Pick)
  {
    match p
    case Satellite(s, id) => s + 1 <= 0xFFFF && id < IdSpace
    case GroundStation(id) => id < IdSpace
  }

  /** Both texts carry the same four bytes, the last of which is 2 more than a
      multiple of 4. */
  lemma AddressesAgree(p: Pick)
    ensures var a, v4 := NodeAddress(p), NodeAddressV4(p);
            |a| == 6 && |v4| == 4 && 2 <= v4[3] <= 254 && v4[3] % 4 == 2 &&
            forall i | 0 <= i < 4 :: a[2 + i] == Hex(v4[i])
  {
    match p
    case Satellite(s, id) => Ipv4MatchesIpv6(s + 1, id);
    case GroundStation(id) => Ipv4MatchesIpv6(0, id);
  }

  /** The route server reads the address of a picked node as the node the
      simulation names for the node's global index. */
  lemma AddressNamesNode(sizes: seq<nat>, numGst: nat, p: Pick)
    requires ValidPick(sizes, numGst, p) && AddressablePick(p)
    ensures IsNodeInfo(sizes, PickedIndex(sizes, p), ParseNodeInfo(NodeAddress(p)))
  {
    PickedIndexNames(sizes, numGst, p);
    PickAddressReadsBack(p);
  }

  /** The server reads an addressable pick's address as the pick's 1-based
      shell (0 for a ground station) and id. */
  lemma PickAddressReadsBack(p: Pick)
    requires AddressablePick(p) && (p.Satellite? ==> p.shell >= 0) && p.id >= 0
    ensures ParseNodeInfo(NodeAddress(p)) == (if p.Satellite? then (p.shell + 1, p.id) else (0, p.id))
  {
    var shell := if p.Satellite? then p.shell + 1 else 0;
    assert NodeAddress(p) == CalculateIp(shell, p.id);
    ParseEncodable(shell, p.id);
  }

  /** Reading shell identifiers, the animation draws a reported node where the
      interface shows it: the address of a pick leads back to its index. */
  lemma ReportedNodeDrawnAtPick(sizes: seq<nat>, numGst: nat, p: Pick)
    requires ValidPick(sizes, numGst, p) && AddressablePick(p)
    ensures var r := ParseNodeInfo(NodeAddress(p));
            NodeGlobalIndexIntended(sizes, numGst, r.0, r.1) == PickedIndex(sizes, p)
  {
    AddressNamesNode(sizes, numGst, p);
    PickedIndexNames(sizes, numGst, p);
    IntendedInvertsNodeInfo(sizes, numGst, PickedIndex(sizes, p), ParseNodeInfo(NodeAddress(p)));
  }

  /** As written, every satellite of the last shell that a route reports is
      drawn at index 0. */
  lemma WrittenLosesLastShell(sizes: seq<nat>, numGst: nat, id: int)
    requires |sizes| >= 1 && 0 <= id < sizes[|sizes| - 1] && id < IdSpace && |sizes| <= 0xFFFF
    ensures var r := ParseNodeInfo(NodeAddress(Satellite(|sizes| - 1, id)));
            NodeGlobalIndexWritten(sizes, numGst, r.0, r.1) == 0
  {
    ParseEncoded(|sizes|, id);
  }

  /** The reset gate of a right click: during a reset the click goes through
      only once `RouteResetDuration` has passed since the reset began. */
  predicate ResetOver(v: ViewState, now: real)
  {
    v.resetTimerStart.Some? && now - v.resetTimerStart.value > RouteResetDuration
  }

  /** `handleRightClick` with the picked node (None when the click is near no
      node): ignored while a request is pending or a reset is under way; a
      reset that has run its time ends. Then the first pick becomes the route
      source, and a later pick becomes the target and shows the route. */
  function RightClick(sizes: seq<nat>, numGst: nat, v: ViewState, pick: Option<Pick>, now: real,
                      sendOk: bool): (ViewState, Option<Request>)
    requires ViewInv(sizes, numGst, v)
    requires pick.Some? ==> ValidPick(sizes, numGst, pick.value)
  {
    if v.pending then (v, None)
    else if v.routeReset && !ResetOver(v, now) then (v, None)
    else
      var w := if v.routeReset then v.(routeReset := false, resetTimerStart := None) else v;
      match pick
      case None => (w, None)
      case Some(p) =>
        if w.source.None? then (w.(source := Some(p)), None)
        else ShowRoute(sizes, w.(target := Some(p)), w.source.value, p, sendOk)
  }

  lemma RightClickInv(sizes: seq<nat>, numGst: nat, v: ViewState, pick: Option<Pick>, now: real, sendOk: bool)
    requires ViewInv(sizes, numGst, v)
    requires pick.Some? ==> ValidPick(sizes, numGst, pick.value)
    ensures ViewInv(sizes, numGst, RightClick(sizes, numGst, v, pick, now, sendOk).0)
  {
    if !v.pending && !(v.routeReset && !ResetOver(v, now)) && pick.Some? {
      var w := if v.routeReset then v.(routeReset := false, resetTimerStart := None) else v;
      if w.source.Some? {
        ShowRouteInv(sizes, numGst, w.(target := pick), w.source.value, pick.value, sendOk);
      }
    }
  }

  /** A click while a request is pending, or during a reset that has not run
      its time, changes nothing and sends nothing. */
  lemma RightClickIgnored(sizes: seq<nat>, numGst: nat, v: ViewState, pick: Option<Pick>, now: real,
                          sendOk: bool)
    requires ViewInv(sizes, numGst, v)
    requires pick.Some? ==> ValidPick(sizes, numGst, pick.value)
    requires v.pending || (v.routeReset && !ResetOver(v, now))
    ensures RightClick(sizes, numGst, v, pick, now, sendOk) == (v, None)
  {
  }

  /** Otherwise the reset is over after the click; the first pick only selects
      the source; a later pick selects the target, stores both indices and
      requests the route (pending when the request went out). */
  lemma RightClickSelects(sizes: seq<nat>, numGst: nat, v: ViewState, p: Pick, now: real, sendOk: bool)
    requires ViewInv(sizes, numGst, v) && ValidPick(sizes, numGst, p)
    requires !v.pending && (v.routeReset ==> ResetOver(v, now))
    ensures var (w, sent) := RightClick(sizes, numGst, v, Some(p), now, sendOk);
            !w.routeReset && (v.routeReset ==> w.resetTimerStart.None?)
    ensures var (w, sent) := RightClick(sizes, numGst, v, Some(p), now, sendOk);
            v.source.None? ==> w.source == Some(p) && w.target == v.target && sent.None? && !w.pending
    ensures var (w, sent) := RightClick(sizes, numGst, v, Some(p), now, sendOk);
            v.source.Some? ==>
              w.source == v.source && w.target == Some(p) &&
              w.sourceIndex == Some(PickedIndex(sizes, v.source.value)) &&
              w.targetIndex == Some(PickedIndex(sizes, p)) &&
              w.pending == sendOk &&
              sent == (if sendOk then Some(Request(PickedIndex(sizes, v.source.value), PickedIndex(sizes, p)))
                       else None)
  {
  }

  /** `handleRightClick` on the animation object. */
  method HandleRightClick(view: RouteView, pick: Option<Pick>, now: real, sendOk: bool)
    returns (sent: Option<Request>)
    requires view.Valid()
    requires pick.Some? ==> ValidPick(view.sizes, view.numGst, pick.value)
    modifies view
    ensures view.Valid()
    ensures (view.State(), sent) == RightClick(view.sizes, view.numGst, old(view.State()), pick, now, sendOk)
  {
    sent := None;
    if view.pending {
      return;
    }
    if view.routeReset {
      if view.resetTimerStart.Some? && now - view.resetTimerStart.value > RouteResetDuration {
        view.routeReset := false;
        view.resetTimerStart := None;
      } else {
        return;
      }
    }
    if pick.None? {
      return;
    }
    var p := pick.value;
    if view.source.None? {
      view.source := Some(p);
      return;
    }
    view.target := Some(p);
    sent := view.ShowRoutePath(view.source.value, p, sendOk);
  }
}
