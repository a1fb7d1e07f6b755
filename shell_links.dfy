/** The links of one shell: the +GRID inter-satellite links, written once
    into the link array, their per-step distance and activity, and the
    per-step choice of satellite uplinks for every ground station. Node
    numbers are satellite indices `plane * sats + offset` in `[0, planes *
    sats)`. Distances are the whole metres the positions give; they are
    inputs here. */
module ShellLinks {
  import opened Common

  /** An inter-satellite link (`SAT_LINK_DTYPE`). */
  datatype Link = Link(node1: int, node2: int, active: bool, distance: nat)

  /** Every `CrosslinkInterpolation`-th satellite gets a cross-plane link. */
  const CrosslinkInterpolation: nat := 1

  /** The node an intra-plane link from node `k` leads to: the next satellite
      of the same plane, wrapping to the first of the plane. */
  function IntraEnd(sats: nat, k: nat): int
    requires sats > 0
  {
    var plane, offset := k / sats, k % sats;
    if offset == sats - 1 then plane * sats else k + 1
  }

  /** The node a cross-plane link from node `k` leads to: the satellite with
      the same offset in the next plane, the last plane wrapping to the
      first. */
  function CrossEnd(planes: nat, sats: nat, k: nat): int
    requires sats > 0
  {
    var plane, offset := k / sats, k % sats;
    var plane2 := if plane == planes - 1 then 0 else plane + 1;
    offset + plane2 * sats
  }

  /** The endpoints of link `k` of the grid: the `planes * sats` intra-plane
      links first, then the cross-plane links, both by node number. */
  function GridLink(planes: nat, sats: nat, k: nat): (int, int)
    requires sats > 0
  {
    if k < planes * sats then (k, IntraEnd(sats, k))
    else (k - planes * sats, CrossEnd(planes, sats, k - planes * sats))
  }

  /** The grid links in array order. */
  function Grid(planes: nat, sats: nat): (g: seq<(int, int)>)
    ensures |g| == if sats == 0 then 0 else planes * sats * 2
  {
    if sats == 0 then [] else GridPrefix(planes, sats, planes * sats * 2)
  }

  /** The first `n` grid links. */
  function GridPrefix(planes: nat, sats: nat, n: nat): (g: seq<(int, int)>)
    requires sats > 0
    ensures |g| == n
  {
    if n == 0 then [] else GridPrefix(planes, sats, n - 1) + [GridLink(planes, sats, n - 1)]
  }

  lemma {:induction false} GridPrefixAt(planes: nat, sats: nat, n: nat, k: nat)
    requires sats > 0 && k < n
    ensures GridPrefix(planes, sats, n)[k] == GridLink(planes, sats, k)
  {
    if k < n - 1 {
      GridPrefixAt(planes, sats, n - 1, k);
    }
  }

  /** `_numba_init_plus_grid_links` on the zeroed link array of the shell,
      which has room for two links per satellite: it fills the whole array
      with the grid links, in order, and returns their number. */
  method InitPlusGridLinks(links: array<Link>, planes: nat, sats: nat) returns (count: nat)
    requires links.Length == planes * sats * 2
    modifies links
    ensures count == planes * sats * 2 == links.Length == |Grid(planes, sats)|
    ensures forall k | 0 <= k < count ::
              links[k] == old(links[k]).(node1 := Grid(planes, sats)[k].0, node2 := Grid(planes, sats)[k].1)
  {
    if sats == 0 {
      return 0;
    }
    ghost var grid := Grid(planes, sats);
    var linkIdx := AddIntraPlaneLinks(links, grid, planes, sats);
    ghost var mid := links[..];
    count := AddCrossPlaneLinks(links, grid, planes, sats, linkIdx);
    assert forall k | 0 <= k < linkIdx :: links[k] == mid[k];
  }

  /** The first outer loop: the intra-plane links of every plane, in plane
      order, at the front of the array. */
  method AddIntraPlaneLinks(links: array<Link>, ghost grid: seq<(int, int)>, planes: nat, sats: nat)
    returns (linkIdx: nat)
    requires sats > 0 && grid == Grid(planes, sats) && links.Length == planes * sats * 2
    modifies links
    ensures linkIdx == planes * sats
    ensures forall k | 0 <= k < linkIdx :: links[k] == old(links[k]).(node1 := grid[k].0, node2 := grid[k].1)
    ensures forall k | linkIdx <= k < links.Length :: links[k] == old(links[k])
  {
    linkIdx := 0;
    for plane := 0 to planes
      invariant linkIdx == plane * sats
      invariant forall k | 0 <= k < linkIdx :: links[k] == old(links[k]).(node1 := grid[k].0, node2 := grid[k].1)
      invariant forall k | linkIdx <= k < links.Length :: links[k] == old(links[k])
    {
      IntraRow(planes, sats, plane);
      linkIdx := AddIntraLinks(links, grid, sats, plane, linkIdx);
      MulSucc(plane, sats);
    }
  }

  /** The second outer loop: the cross-plane links of every plane to the
      next, in plane order, behind the intra-plane links, which it leaves
      as they are. */
  method AddCrossPlaneLinks(links: array<Link>, ghost grid: seq<(int, int)>, planes: nat, sats: nat, start: nat)
    returns (linkIdx: nat)
    requires sats > 0 && grid == Grid(planes, sats) && links.Length == planes * sats * 2
    requires start == planes * sats
    modifies links
    ensures linkIdx == planes * sats * 2
    ensures forall k | 0 <= k < start :: links[k] == old(links[k])
    ensures forall k | start <= k < linkIdx :: links[k] == old(links[k]).(node1 := grid[k].0, node2 := grid[k].1)
  {
    linkIdx := start;
    for plane := 0 to planes
      invariant linkIdx == start + plane * sats
      invariant forall k | 0 <= k < start :: links[k] == old(links[k])
      invariant forall k | start <= k < linkIdx :: links[k] == old(links[k]).(node1 := grid[k].0, node2 := grid[k].1)
      invariant forall k | linkIdx <= k < links.Length :: links[k] == old(links[k])
    {
      var plane2 := if plane == planes - 1 then 0 else plane + 1;
      CrossRow(planes, sats, plane, plane2, linkIdx);
      linkIdx := AddCrossLinks(links, grid, sats, plane, plane2, linkIdx);
      MulSucc(plane, sats);
    }
  }

  /** The inner loop over the offsets of plane `plane`, intra-plane links,
      writing positions `start ..` with the grid links `grid` holds there. */
  method AddIntraLinks(links: array<Link>, ghost grid: seq<(int, int)>, sats: nat, plane: nat, start: nat)
    returns (linkIdx: nat)
    requires sats > 0 && start == plane * sats && start + sats <= links.Length && start + sats <= |grid|
    requires forall k | start <= k < start + sats ::
               grid[k] == (k, if k == start + sats - 1 then start else k + 1)
    modifies links
    ensures linkIdx == start + sats
    ensures forall k | 0 <= k < links.Length && !(start <= k < linkIdx) :: links[k] == old(links[k])
    ensures forall k | start <= k < linkIdx :: links[k] == old(links[k]).(node1 := grid[k].0, node2 := grid[k].1)
  {
    linkIdx := start;
    for node := 0 to sats
      invariant linkIdx == start + node
      invariant forall k | 0 <= k < links.Length && !(start <= k < linkIdx) :: links[k] == old(links[k])
      invariant forall k | start <= k < linkIdx :: links[k] == old(links[k]).(node1 := grid[k].0, node2 := grid[k].1)
    {
      var node1 := node + plane * sats;
      var node2 := if node == sats - 1 then plane * sats else node + plane * sats + 1;
      links[linkIdx] := links[linkIdx].(node1 := node1, node2 := node2);
      linkIdx := linkIdx + 1;
    }
  }

  /** The inner loop over the offsets of plane `plane`, cross-plane links to
      plane `plane2`. */
  method AddCrossLinks(links: array<Link>, ghost grid: seq<(int, int)>, sats: nat, plane: nat, plane2: nat,
                       start: nat) returns (linkIdx: nat)
    requires sats > 0 && start + sats <= links.Length && start + sats <= |grid|
    requires forall k | start <= k < start + sats ::
               grid[k] == (k - start + plane * sats, k - start + plane2 * sats)
    modifies links
    ensures linkIdx == start + sats
    ensures forall k | 0 <= k < links.Length && !(start <= k < linkIdx) :: links[k] == old(links[k])
    ensures forall k | start <= k < linkIdx :: links[k] == old(links[k]).(node1 := grid[k].0, node2 := grid[k].1)
  {
    linkIdx := start;
    for node := 0 to sats
      invariant linkIdx == start + node
      invariant forall k | 0 <= k < links.Length && !(start <= k < linkIdx) :: links[k] == old(links[k])
      invariant forall k | start <= k < linkIdx :: links[k] == old(links[k]).(node1 := grid[k].0, node2 := grid[k].1)
    {
      var node1 := node + plane * sats;
      var node2 := node + plane2 * sats;
      if (node1 + 1) % CrosslinkInterpolation == 0 {
        links[linkIdx] := links[linkIdx].(node1 := node1, node2 := node2);
        linkIdx := linkIdx + 1;
      }
    }
  }

  lemma GridAt(planes: nat, sats: nat, k: nat)
    requires sats > 0 && k < planes * sats * 2
    ensures Grid(planes, sats)[k] == GridLink(planes, sats, k)
  {
    GridPrefixAt(planes, sats, planes * sats * 2, k);
  }

  /** The intra-plane links of plane `plane` in the grid. */
  lemma IntraRow(planes: nat, sats: nat, plane: nat)
    requires sats > 0 && plane < planes
    ensures plane * sats + sats <= |Grid(planes, sats)|
    ensures forall k | plane * sats <= k < plane * sats + sats ::
              Grid(planes, sats)[k] == (k, if k == plane * sats + sats - 1 then plane * sats else k + 1)
  {
    NodeInShell(planes, sats, plane, sats - 1);
    var start := plane * sats;
    assert start + sats <= planes * sats * 2;
    forall k | start <= k < start + sats
      ensures Grid(planes, sats)[k] == (k, if k == start + sats - 1 then start else k + 1)
    {
      IntraRowAt(planes, sats, plane, start, k);
    }
  }

  lemma IntraRowAt(planes: nat, sats: nat, plane: nat, start: nat, k: nat)
    requires sats > 0 && plane < planes && start == plane * sats && start <= k < start + sats
    ensures k < |Grid(planes, sats)|
    ensures Grid(planes, sats)[k] == (k, if k == start + sats - 1 then start else k + 1)
  {
    IntraLinkOf(planes, sats, plane, k - start, k);
    GridAt(planes, sats, k);
  }

  /** The cross-plane links of plane `plane`, to plane `plane2`, in the grid,
      from position `start` on. */
  lemma CrossRow(planes: nat, sats: nat, plane: nat, plane2: nat, start: nat)
    requires sats > 0 && plane < planes && plane2 == if plane == planes - 1 then 0 else plane + 1
    requires start == planes * sats + plane * sats
    ensures start + sats <= |Grid(planes, sats)| && start + sats <= planes * sats * 2
    ensures forall k | start <= k < start + sats ::
              Grid(planes, sats)[k] == (k - start + plane * sats, k - start + plane2 * sats)
  {
    CrossRowFits(planes, sats, plane, start);
    forall k | start <= k < start + sats
      ensures Grid(planes, sats)[k] == (k - start + plane * sats, k - start + plane2 * sats)
    {
      CrossRowAt(planes, sats, plane, plane2, start, k);
    }
  }

  lemma CrossRowFits(planes: nat, sats: nat, plane: nat, start: nat)
    requires sats > 0 && plane < planes && start == planes * sats + plane * sats
    ensures start + sats <= planes * sats * 2
  {
    NodeInShell(planes, sats, plane, sats - 1);
  }

  lemma CrossRowAt(planes: nat, sats: nat, plane: nat, plane2: nat, start: nat, k: nat)
    requires sats > 0 && plane < planes && plane2 == if plane == planes - 1 then 0 else plane + 1
    requires start == planes * sats + plane * sats && start <= k < start + sats
    ensures k < |Grid(planes, sats)|
    ensures Grid(planes, sats)[k] == (k - start + plane * sats, k - start + plane2 * sats)
  {
    CrossLinkOf(planes, sats, plane, plane2, k - start, k);
    GridAt(planes, sats, k);
  }

  /** The intra-plane link written for offset `node` of plane `plane`, at
      position `k == plane * sats + node`, is grid link number `k`. */
  lemma IntraLinkOf(planes: nat, sats: nat, plane: nat, node: nat, k: nat)
    requires plane < planes && node < sats && k == plane * sats + node
    ensures k < planes * sats
    ensures GridLink(planes, sats, k) ==
            (node + plane * sats, if node == sats - 1 then plane * sats else node + plane * sats + 1)
  {
    NodeInShell(planes, sats, plane, node);
    DivModOf(plane, node, sats);
  }

  /** The cross-plane link written for offset `node` of plane `plane`, at
      position `k == planes * sats + plane * sats + node`, is grid link number
      `k`; it leads to plane `plane2`, the next one. */
  lemma CrossLinkOf(planes: nat, sats: nat, plane: nat, plane2: nat, node: nat, k: nat)
    requires plane < planes && plane2 == (if plane == planes - 1 then 0 else plane + 1)
    requires node < sats && k == planes * sats + plane * sats + node
    ensures k < planes * sats * 2
    ensures GridLink(planes, sats, k) == (node + plane * sats, node + plane2 * sats)
  {
    NodeInShell(planes, sats, plane, node);
    DivModOf(plane, node, sats);
    var j := k - planes * sats;
    assert j == plane * sats + node;
  }

  /** Node `j` of the shell lies in plane `j / sats`, one of the `planes`
      planes, at offset `j % sats`. */
  lemma PlaneOf(planes: nat, sats: nat, j: nat)
    requires sats > 0 && j < planes * sats
    ensures j / sats < planes && (j / sats) * sats + j % sats == j
    ensures (j / sats) * sats + sats <= planes * sats
  {
    var plane := j / sats;
    MulCancel(plane, planes, sats);
    assert (plane + 1) * sats == plane * sats + sats;
    MulMonotone(plane + 1, planes, sats);
  }

  /** A node with offset `offset < sats` in plane `plane < planes` is a
      satellite of the shell. */
  lemma NodeInShell(planes: nat, sats: nat, plane: nat, offset: nat)
    requires plane < planes && offset < sats
    ensures plane * sats + offset < planes * sats
  {
    assert (plane + 1) * sats == plane * sats + sats;
    MulMonotone(plane + 1, planes, sats);
  }

  /** Both endpoints of every grid link are satellites of the shell. */
  lemma GridLinkInRange(planes: nat, sats: nat, k: nat)
    requires sats > 0 && k < planes * sats * 2
    ensures 0 <= GridLink(planes, sats, k).0 < planes * sats
    ensures 0 <= GridLink(planes, sats, k).1 < planes * sats
  {
    var j := if k < planes * sats then k else k - planes * sats;
    PlaneOf(planes, sats, j);
    if k < planes * sats {
      IntraEndInShell(planes, sats, j);
    } else {
      CrossEndInShell(planes, sats, j);
    }
  }

  /** Both endpoints of every link of the grid are satellites of the shell. */
  lemma GridInRange(planes: nat, sats: nat, k: nat)
    requires k < |Grid(planes, sats)|
    ensures 0 <= Grid(planes, sats)[k].0 < planes * sats
    ensures 0 <= Grid(planes, sats)[k].1 < planes * sats
  {
    GridAt(planes, sats, k);
    GridLinkInRange(planes, sats, k);
  }

  lemma IntraEndInShell(planes: nat, sats: nat, j: nat)
    requires sats > 0 && j < planes * sats
    ensures 0 <= IntraEnd(sats, j) < planes * sats
  {
    PlaneOf(planes, sats, j);
  }

  lemma CrossEndInShell(planes: nat, sats: nat, j: nat)
    requires sats > 0 && j < planes * sats
    ensures 0 <= CrossEnd(planes, sats, j) < planes * sats
  {
    PlaneOf(planes, sats, j);
    var plane, offset := j / sats, j % sats;
    var plane2 := if plane == planes - 1 then 0 else plane + 1;
    NodeInShell(planes, sats, plane2, offset);
  }

  /** Intra-plane link `k` joins node `k` to the next offset of the same
      plane, the last offset wrapping to offset 0. */
  lemma IntraLinkJoinsNeighbours(planes: nat, sats: nat, k: nat)
    requires sats > 0 && k < planes * sats
    ensures var (a, b) := GridLink(planes, sats, k);
            a == k && b / sats == k / sats && b % sats == (k % sats + 1) % sats
  {
    var plane, offset := k / sats, k % sats;
    var b := GridLink(planes, sats, k).1;
    assert k == plane * sats + offset;
    if offset == sats - 1 {
      assert b == plane * sats + 0;
      DivModOf(plane, 0, sats);
      DivModOf(1, 0, sats);
      assert offset + 1 == 1 * sats + 0;
    } else {
      assert b == plane * sats + (offset + 1);
      DivModOf(plane, offset + 1, sats);
      DivModOf(0, offset + 1, sats);
      assert offset + 1 == 0 * sats + (offset + 1);
    }
  }

  /** Cross-plane link `planes * sats + j` joins node `j` to the node with the
      same offset in the next plane, the last plane wrapping to plane 0. */
  lemma CrossLinkJoinsPlanes(planes: nat, sats: nat, j: nat)
    requires sats > 0 && j < planes * sats
    ensures var (a, b) := GridLink(planes, sats, planes * sats + j);
            a == j && b % sats == j % sats && b / sats == (j / sats + 1) % planes
  {
    var plane, offset := j / sats, j % sats;
    assert j == plane * sats + offset;
    assert plane * sats < planes * sats;
    MulCancel(plane, planes, sats);
    var plane2 := if plane == planes - 1 then 0 else plane + 1;
    var b := GridLink(planes, sats, planes * sats + j).1;
    assert b == plane2 * sats + offset;
    DivModOf(plane2, offset, sats);
    if plane == planes - 1 {
      DivModOf(1, 0, planes);
      assert plane + 1 == 1 * planes + 0;
    } else {
      DivModOf(0, plane + 1, planes);
      assert plane + 1 == 0 * planes + (plane + 1);
    }
  }

  /** `_numba_update_plus_grid_links`, first loop: every grid link takes the
      distance between its endpoints and is active when that distance is in
      inter-satellite range. */
  method UpdateIslLinks(links: array<Link>, count: nat, distance: seq<nat>, maxIslRange: nat)
    requires count <= links.Length && |distance| == count
    modifies links
    ensures forall k | 0 <= k < count ::
              links[k] == old(links[k]).(active := distance[k] <= maxIslRange, distance := distance[k])
    ensures links[count..] == old(links[count..])
  {
    for k := 0 to count
      invariant forall i | 0 <= i < k ::
                  links[i] == old(links[i]).(active := distance[i] <= maxIslRange, distance := distance[i])
      invariant links[k..] == old(links[k..])
    {
      links[k] := links[k].(active := distance[k] <= maxIslRange, distance := distance[k]);
    }
  }

  /** A ground station (`GROUNDPOINT_DTYPE`): ground station `i` has id
      `-i - 1`. */
  datatype GroundStation = GroundStation(id: int, connType: nat, maxRange: nat, bandwidth: nat)

  /** `conn_type` of a ground station that keeps a single uplink; any other
      value keeps every satellite in range. */
  const ConnOne: nat := 1

  /** The largest 32-bit unsigned value, the "no link yet" mark. */
  const MaxUint32: nat := 0xFFFF_FFFF

  /** An uplink (`GST_SAT_LINK_DTYPE`). */
  datatype GstLink = GstLink(gst: int, sat: int, distance: nat)

  /** The scan of one ground station over satellites `0 .. n - 1` as the loop
      runs it: the uplinks it has recorded and `shortest_d`. A satellite out
      of range is skipped. A single-link station skips a satellite farther
      than its current one, and otherwise replaces the current one, if any,
      by the new one. */
  function Scan(g: GroundStation, d: seq<nat>, n: nat): (r: (seq<GstLink>, nat))
    requires n <= |d|
    ensures |r.0| <= n
    ensures r.1 != MaxUint32 ==> |r.0| >= 1
  {
    if n == 0 then ([], MaxUint32)
    else
      var (ups, shortest) := Scan(g, d, n - 1);
      var dn := d[n - 1];
      if dn > g.maxRange then (ups, shortest)
      else if g.connType == ConnOne then
        if dn > shortest then (ups, shortest)
        else
          var kept := if shortest != MaxUint32 then ups[..|ups| - 1] else ups;
          (kept + [GstLink(g.id, n - 1, dn)], dn)
      else (ups + [GstLink(g.id, n - 1, dn)], shortest)
  }

  /** Every uplink of `ups` belongs to station `g`, leads to one of
      satellites `0 .. n - 1`, carries that satellite's distance and is in
      range; the satellites appear in increasing order. */
  predicate UplinksInRange(g: GroundStation, d: seq<nat>, n: nat, ups: seq<GstLink>)
    requires n <= |d|
  {
    (forall i | 0 <= i < |ups| ::
       ups[i].gst == g.id && 0 <= ups[i].sat < n && ups[i].distance == d[ups[i].sat] <= g.maxRange) &&
    (forall i, j | 0 <= i < j < |ups| :: ups[i].sat < ups[j].sat)
  }

  /** Every uplink the scan records is one of the station's, in range, in
      satellite order. */
  lemma {:induction false} ScanLinksInRange(g: GroundStation, d: seq<nat>, n: nat)
    requires n <= |d|
    ensures UplinksInRange(g, d, n, Scan(g, d, n).0)
  {
    if n > 0 {
      ScanLinksInRange(g, d, n - 1);
      var prev, shortest := Scan(g, d, n - 1).0, Scan(g, d, n - 1).1;
      var dn := d[n - 1];
      if dn <= g.maxRange && !(g.connType == ConnOne && dn > shortest) {
        ScanTakesInRange(g, d, n);
      } else {
        assert Scan(g, d, n).0 == prev;
        InRangeWiden(g, d, n, prev);
      }
    }
  }

  /** The step that records an uplink to satellite `n - 1`. */
  lemma ScanTakesInRange(g: GroundStation, d: seq<nat>, n: nat)
    requires 0 < n <= |d| && UplinksInRange(g, d, n - 1, Scan(g, d, n - 1).0)
    requires d[n - 1] <= g.maxRange && !(g.connType == ConnOne && d[n - 1] > Scan(g, d, n - 1).1)
    ensures UplinksInRange(g, d, n, Scan(g, d, n).0)
  {
    var prev, shortest := Scan(g, d, n - 1).0, Scan(g, d, n - 1).1;
    var kept := if g.connType == ConnOne && shortest != MaxUint32 then prev[..|prev| - 1] else prev;
    InRangePrefix(g, d, n - 1, prev, |kept|);
    assert prev[..|kept|] == kept;
    InRangeAppend(g, d, n, kept, Scan(g, d, n).0);
  }

  lemma InRangePrefix(g: GroundStation, d: seq<nat>, n: nat, ups: seq<GstLink>, m: nat)
    requires n <= |d| && m <= |ups| && UplinksInRange(g, d, n, ups)
    ensures UplinksInRange(g, d, n, ups[..m])
  {
    var p := ups[..m];
    assert forall i | 0 <= i < |p| :: p[i] == ups[i];
  }

  lemma InRangeWiden(g: GroundStation, d: seq<nat>, n: nat, ups: seq<GstLink>)
    requires 0 < n <= |d| && UplinksInRange(g, d, n - 1, ups)
    ensures UplinksInRange(g, d, n, ups)
  {
  }

  /** Appending the uplink to satellite `n - 1`, in range, keeps the uplinks
      in range and in satellite order. */
  lemma InRangeAppend(g: GroundStation, d: seq<nat>, n: nat, ups: seq<GstLink>, r: seq<GstLink>)
    requires 0 < n <= |d| && d[n - 1] <= g.maxRange && UplinksInRange(g, d, n - 1, ups)
    requires r == ups + [GstLink(g.id, n - 1, d[n - 1])]
    ensures UplinksInRange(g, d, n, r)
  {
    assert forall i | 0 <= i < |ups| :: r[i] == ups[i];
    assert r[|ups|] == GstLink(g.id, n - 1, d[n - 1]);
  }

  /** Every satellite of `0 .. n - 1` in range of `g` has an uplink in `ups`. */
  predicate CoversRange(g: GroundStation, d: seq<nat>, n: nat, ups: seq<GstLink>)
    requires n <= |d|
  {
    forall s | 0 <= s < n && d[s] <= g.maxRange :: exists i | 0 <= i < |ups| :: ups[i].sat == s
  }

  /** A station that keeps every satellite records an uplink to each one in
      range. */
  lemma {:induction false} ScanAllKeepsEveryone(g: GroundStation, d: seq<nat>, n: nat)
    requires n <= |d| && g.connType != ConnOne
    ensures CoversRange(g, d, n, Scan(g, d, n).0)
  {
    if n > 0 {
      ScanAllKeepsEveryone(g, d, n - 1);
      var ups := Scan(g, d, n).0;
      var prev := Scan(g, d, n - 1).0;
      forall s | 0 <= s < n && d[s] <= g.maxRange
        ensures exists i | 0 <= i < |ups| :: ups[i].sat == s
      {
        if s < n - 1 {
          var i :| 0 <= i < |prev| && prev[i].sat == s;
          assert ups[i] == prev[i];
        } else {
          assert ups[|ups| - 1].sat == s;
        }
      }
    }
  }

  /** What a single-link station holds after satellites `0 .. n - 1`: no
      uplink and the mark when none of them is in range, and otherwise one
      uplink, to the nearest satellite in range, the last of several equally
      near ones, with `shortest` its distance. */
  predicate KeepsNearest(g: GroundStation, d: seq<nat>, n: nat, ups: seq<GstLink>, shortest: nat)
    requires n <= |d|
  {
    |ups| <= 1 &&
    (|ups| == 0 <==> forall s | 0 <= s < n :: d[s] > g.maxRange) &&
    (|ups| == 0 ==> shortest == MaxUint32) &&
    (|ups| == 1 ==>
       0 <= ups[0].sat < n && ups[0] == GstLink(g.id, ups[0].sat, d[ups[0].sat]) &&
       shortest == d[ups[0].sat] <= g.maxRange &&
       (forall s | 0 <= s < n && d[s] <= g.maxRange :: d[ups[0].sat] <= d[s]) &&
       (forall s | ups[0].sat < s < n :: d[s] > d[ups[0].sat]))
  }

  /** A single-link station whose range is below the mark keeps the nearest
      satellite in range. */
  lemma {:induction false} ScanOneKeepsNearest(g: GroundStation, d: seq<nat>, n: nat)
    requires n <= |d| && g.connType == ConnOne && g.maxRange < MaxUint32
    ensures KeepsNearest(g, d, n, Scan(g, d, n).0, Scan(g, d, n).1)
  {
    if n > 0 {
      ScanOneKeepsNearest(g, d, n - 1);
      var dn := d[n - 1];
      if dn > g.maxRange || dn > Scan(g, d, n - 1).1 {
        NearestSkip(g, d, n);
      } else {
        NearestTake(g, d, n);
      }
    }
  }

  /** Satellite `n - 1` is out of range, or farther than the kept one: the
      kept uplink stays the nearest. */
  lemma NearestSkip(g: GroundStation, d: seq<nat>, n: nat)
    requires 0 < n <= |d| && g.connType == ConnOne && g.maxRange < MaxUint32
    requires KeepsNearest(g, d, n - 1, Scan(g, d, n - 1).0, Scan(g, d, n - 1).1)
    requires d[n - 1] > g.maxRange || d[n - 1] > Scan(g, d, n - 1).1
    ensures KeepsNearest(g, d, n, Scan(g, d, n).0, Scan(g, d, n).1)
  {
    var ups, shortest := Scan(g, d, n - 1).0, Scan(g, d, n - 1).1;
    assert Scan(g, d, n) == (ups, shortest);
    assert d[n - 1] <= g.maxRange ==> |ups| == 1;
  }

  /** Satellite `n - 1` is in range and at most as far as the kept one: it
      becomes the nearest. */
  lemma NearestTake(g: GroundStation, d: seq<nat>, n: nat)
    requires 0 < n <= |d| && g.connType == ConnOne && g.maxRange < MaxUint32
    requires KeepsNearest(g, d, n - 1, Scan(g, d, n - 1).0, Scan(g, d, n - 1).1)
    requires d[n - 1] <= g.maxRange && d[n - 1] <= Scan(g, d, n - 1).1
    ensures KeepsNearest(g, d, n, Scan(g, d, n).0, Scan(g, d, n).1)
  {
    var ups, shortest := Scan(g, d, n - 1).0, Scan(g, d, n - 1).1;
    var dn := d[n - 1];
    assert shortest != MaxUint32 ==> |ups| == 1;
    assert shortest == MaxUint32 ==> |ups| == 0;
    var kept := if shortest != MaxUint32 then ups[..|ups| - 1] else ups;
    assert kept == [];
    assert Scan(g, d, n) == (kept + [GstLink(g.id, n - 1, dn)], dn);
    forall s | 0 <= s < n && d[s] <= g.maxRange
      ensures dn <= d[s]
    {
      if s < n - 1 {
        assert |ups| == 1;
      }
    }
  }

  /** The uplinks of stations `0 .. n - 1`, one station after the other. */
  function AllScans(gsts: seq<GroundStation>, dist: seq<seq<nat>>, sats: nat, n: nat): (r: seq<GstLink>)
    requires n <= |gsts| && n <= |dist|
    requires forall g | 0 <= g < |dist| :: |dist[g]| == sats
    ensures |r| <= n * sats
  {
    if n == 0 then []
    else
      var r := AllScans(gsts, dist, sats, n - 1) + Scan(gsts[n - 1], dist[n - 1], sats).0;
      assert n * sats == (n - 1) * sats + sats;
      r
  }

  /** Uplink `l` leads to a satellite of the shell and belongs to one of the
      first `n` stations, within its range at the satellite's distance. */
  predicate FromStation(gsts: seq<GroundStation>, dist: seq<seq<nat>>, sats: nat, n: nat, l: GstLink)
    requires n <= |gsts| && n <= |dist|
    requires forall g | 0 <= g < |dist| :: |dist[g]| == sats
  {
    0 <= l.sat < sats &&
    exists g | 0 <= g < n :: l.gst == gsts[g].id && l.distance == dist[g][l.sat] <= gsts[g].maxRange
  }

  /** Every uplink of the first `n` stations belongs to one of them, leads
      to a satellite of the shell and is within that station's range, at the
      satellite's distance. */
  lemma {:induction false} AllScansInRange(gsts: seq<GroundStation>, dist: seq<seq<nat>>, sats: nat, n: nat)
    requires n <= |gsts| && n <= |dist|
    requires forall g | 0 <= g < |dist| :: |dist[g]| == sats
    ensures forall x | 0 <= x < |AllScans(gsts, dist, sats, n)| ::
              FromStation(gsts, dist, sats, n, AllScans(gsts, dist, sats, n)[x])
  {
    if n > 0 {
      AllScansInRange(gsts, dist, sats, n - 1);
      var prev, ups := AllScans(gsts, dist, sats, n - 1), Scan(gsts[n - 1], dist[n - 1], sats).0;
      ScanLinksInRange(gsts[n - 1], dist[n - 1], sats);
      var r := AllScans(gsts, dist, sats, n);
      assert r == prev + ups;
      forall x | 0 <= x < |r|
        ensures FromStation(gsts, dist, sats, n, r[x])
      {
        if x < |prev| {
          assert r[x] == prev[x];
          assert FromStation(gsts, dist, sats, n - 1, prev[x]);
          var g :| 0 <= g < n - 1 && prev[x].gst == gsts[g].id &&
                   prev[x].distance == dist[g][prev[x].sat] <= gsts[g].maxRange;
        } else {
          assert r[x] == ups[x - |prev|];
          var g := n - 1;
          assert r[x].gst == gsts[g].id && r[x].distance == dist[g][r[x].sat] <= gsts[g].maxRange;
        }
      }
    }
  }

  /** `_numba_update_plus_grid_links`, second loop, on the uplink array of the
      shell, which has room for every station to link to every satellite:
      `dist[g][s]` is the distance from station `g` to satellite `s`. It
      writes the uplinks of every station, in station order, at the front of
      the array and returns their number. */
  method UpdateGstLinks(gstLinks: array<GstLink>, gsts: seq<GroundStation>, sats: nat,
                        dist: seq<seq<nat>>) returns (count: nat)
    requires |dist| == |gsts| && forall g | 0 <= g < |dist| :: |dist[g]| == sats
    requires gstLinks.Length == |gsts| * sats
    modifies gstLinks
    ensures count <= gstLinks.Length
    ensures gstLinks[..count] == AllScans(gsts, dist, sats, |gsts|)
  {
    var gstLinkId: nat := 0;
    for g := 0 to |gsts|
      invariant gstLinkId <= g * sats <= gstLinks.Length
      invariant gstLinks[..gstLinkId] == AllScans(gsts, dist, sats, g)
    {
      StationFits(g, |gsts|, sats);
      gstLinkId := ScanStation(gstLinks, gsts[g], dist[g], gstLinkId);
      assert AllScans(gsts, dist, sats, g + 1) == AllScans(gsts, dist, sats, g) + Scan(gsts[g], dist[g], sats).0;
    }
    count := gstLinkId;
  }

  /** The uplinks of station `g` fit behind those of the stations before it. */
  lemma StationFits(g: nat, stations: nat, sats: nat)
    requires g < stations
    ensures (g + 1) * sats == g * sats + sats <= stations * sats
  {
    MulSucc(g, sats);
    MulMonotone(g + 1, stations, sats);
  }

  /** The inner loop for one station `gst`, `d[s]` its distance to satellite
      `s`: the station's uplinks are written from position `start` on, over
      the station's own scan, and the new end is returned. */
  method ScanStation(gstLinks: array<GstLink>, gst: GroundStation, d: seq<nat>, start: nat)
    returns (end: nat)
    requires start + |d| <= gstLinks.Length
    modifies gstLinks
    ensures end <= start + |d|
    ensures gstLinks[..end] == old(gstLinks[..start]) + Scan(gst, d, |d|).0
  {
    var gstLinkId := start;
    var shortest := MaxUint32;
    for s := 0 to |d|
      invariant start + |Scan(gst, d, s).0| == gstLinkId
      invariant gstLinks[..gstLinkId] == old(gstLinks[..start]) + Scan(gst, d, s).0
      invariant shortest == Scan(gst, d, s).1
    {
      var dist := d[s];
      if dist > gst.maxRange {
        continue;
      }
      if gst.connType == ConnOne {
        if dist > shortest {
          continue;
        }
        if shortest != MaxUint32 {
          gstLinkId := gstLinkId - 1;
        }
        shortest := dist;
      }
      gstLinks[gstLinkId] := GstLink(gst.id, s, dist);
      gstLinkId := gstLinkId + 1;
    }
    end := gstLinkId;
  }
}
