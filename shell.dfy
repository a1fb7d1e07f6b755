/** A shell of the constellation (`Shell`): its inter-satellite grid links,
    its ground station uplinks, the path matrix over satellites and ground
    stations, and the node and link differences reported after each step.
    Orbit propagation, rotation and the bounding-box test are abstracted:
    a step takes the new bounding-box flags and the link distances they
    produce. */
module Shells {
  import opened Common
  import opened ShellLinks
  import opened ShellPaths
  import opened ShellDiff

  /** A configured ground station; `maxRange` is the space-to-ground range
      its minimum elevation allows. */
  datatype StationConfig = StationConfig(name: string, connType: nat, maxRange: nat, bandwidth: nat)

  /** The unused path every entry of a fresh path matrix holds. */
  const NoPath: Path := Path(false, 0, 0, 0, 0)

  class Shell {
    const shellId: nat
    const planes: nat
    const perPlane: nat
    const sats: nat
    const isl: nat
    const maxIslRange: nat
    const gsts: seq<GroundStation>
    const gstNames: seq<string>
    const machineIds: seq<MachineId>
    const links: array<Link>
    const gstLinks: array<GstLink>
    const pathMatrix: array2<Path>
    const currPaths: array2<Path>
    var totalIslLinks: nat
    var totalGstLinks: nat
    var inBbox: seq<bool>
    var nodesDiff: map<MachineId, VmState>
    var linkDiff: map<MachineId, map<MachineId, LinkInfo>>

    /** The shell's invariant: the link array holds the +GRID links, whose
        endpoints never change; recorded uplinks lead to satellites of the
        shell; ground station `i` has id `-i - 1` and machine id `(0, i,
        name)` after the satellites' `(shellId, i)`; and the two path
        matrices are distinct square matrices over all nodes. */
    predicate Valid()
      reads this`totalIslLinks, this`totalGstLinks, this`inBbox, links, gstLinks, pathMatrix, currPaths
    {
      LinksValid() && MatricesValid()
    }

    /** The recorded uplinks: the first `totalGstLinks` entries of the
        uplink array. */
    function Uplinks(): seq<GstLink>
      reads this`totalGstLinks, gstLinks
      requires totalGstLinks <= gstLinks.Length
    {
      gstLinks[..totalGstLinks]
    }

    /** The link and station part of `Valid`. */
    predicate LinksValid()
      reads this`totalIslLinks, this`totalGstLinks, this`inBbox, links, gstLinks
    {
      sats == planes * perPlane &&
      links.Length == sats * 2 && totalIslLinks == |Grid(planes, perPlane)| <= links.Length &&
      (forall k | 0 <= k < totalIslLinks ::
         links[k].node1 == Grid(planes, perPlane)[k].0 && links[k].node2 == Grid(planes, perPlane)[k].1) &&
      gstLinks.Length == |gsts| * sats && totalGstLinks <= gstLinks.Length &&
      UplinksFit(Uplinks(), sats) &&
      (forall i | 0 <= i < |gsts| :: gsts[i].id == -i - 1) &&
      |gstNames| == |gsts| && machineIds == MachineIds(shellId, sats, gstNames) &&
      |inBbox| == sats
    }

    /** The path matrix part of `Valid`. */
    predicate MatricesValid()
      reads pathMatrix, currPaths
    {
      pathMatrix != currPaths && Square(currPaths, pathMatrix, sats + |gsts|) &&
      HopsInRange(pathMatrix, sats + |gsts|)
    }

    /** `Shell.__init__` with the ground stations' ranges worked out: every
        satellite starts outside the bounding box, both path matrices are
        zero, and the link array holds the grid links. */
    constructor (shellId: nat, planes: nat, perPlane: nat, isl: nat, maxIslRange: nat,
                 stations: seq<StationConfig>)
      ensures Valid()
      ensures this.shellId == shellId && this.planes == planes && this.perPlane == perPlane &&
              this.isl == isl && this.maxIslRange == maxIslRange
      ensures |gsts| == |stations| &&
              forall i | 0 <= i < |stations| ::
                gsts[i] == GroundStation(-i - 1, stations[i].connType, stations[i].maxRange, stations[i].bandwidth) &&
                gstNames[i] == stations[i].name
      ensures forall k | 0 <= k < totalIslLinks ::
                links[k] == Link(Grid(planes, perPlane)[k].0, Grid(planes, perPlane)[k].1, false, 0)
      ensures totalGstLinks == 0 && nodesDiff == map[] && linkDiff == map[]
      ensures forall i | 0 <= i < sats :: !inBbox[i]
      ensures forall a, b | 0 <= a < pathMatrix.Length0 && 0 <= b < pathMatrix.Length1 ::
                pathMatrix[a, b] == NoPath && currPaths[a, b] == NoPath
    {
      var n := planes * perPlane;
      var g := |stations|;
      var l := new Link[n * 2](_ => Link(0, 0, false, 0));
      var count := InitPlusGridLinks(l, planes, perPlane);
      this.shellId := shellId;
      this.planes := planes;
      this.perPlane := perPlane;
      this.sats := n;
      this.isl := isl;
      this.maxIslRange := maxIslRange;
      this.gsts := seq(g, i requires 0 <= i < g =>
                         GroundStation(-i - 1, stations[i].connType, stations[i].maxRange, stations[i].bandwidth));
      this.gstNames := seq(g, i requires 0 <= i < g => stations[i].name);
      this.machineIds := MachineIds(shellId, n, seq(g, i requires 0 <= i < g => stations[i].name));
      this.links := l;
      this.gstLinks := new GstLink[g * n](_ => GstLink(0, 0, 0));
      this.pathMatrix := new Path[n + g, n + g]((_, _) => NoPath);
      this.currPaths := new Path[n + g, n + g]((_, _) => NoPath);
      this.totalIslLinks := count;
      this.totalGstLinks := 0;
      this.inBbox := seq(n, _ => false);
      this.nodesDiff := map[];
      this.linkDiff := map[];
    }

    /** `_update_plus_grid_links`: `islDist[k]` is the length of grid link
        `k` and `gstDist[g][s]` the distance from station `g` to satellite
        `s`. Every grid link takes its length and is active when within
        inter-satellite range; the uplinks are scanned again from the
        front of the uplink array. */
    method UpdateGridLinks(islDist: seq<nat>, gstDist: seq<seq<nat>>)
      requires Valid()
      requires |islDist| == totalIslLinks
      requires |gstDist| == |gsts| && forall g | 0 <= g < |gstDist| :: |gstDist[g]| == sats
      modifies this`totalGstLinks, links, gstLinks
      ensures Valid()
      ensures forall k | 0 <= k < totalIslLinks ::
                links[k] == old(links[k]).(active := islDist[k] <= maxIslRange, distance := islDist[k])
      ensures Uplinks() == AllScans(gsts, gstDist, sats, |gsts|)
    {
      UpdateIslLinks(links, totalIslLinks, islDist, maxIslRange);
      totalGstLinks := UpdateGstLinks(gstLinks, gsts, sats, gstDist);
      AllScansInRange(gsts, gstDist, sats, |gsts|);
    }

    /** The node diff of a step: every satellite whose bounding-box flag
        differs from `before`, with its new state. */
    method CalculateNodeDiff(before: seq<bool>)
      requires Valid() && |before| == sats
      modifies this`nodesDiff
      ensures Valid()
      ensures nodesDiff == NodeDiff(shellId, before, inBbox, sats)
    {
      var after, diff := inBbox, map[];
      for i := 0 to sats
        invariant diff == NodeDiff(shellId, before, after, i)
      {
        NodeDiffStep(shellId, before, after, i);
        if after[i] != before[i] {
          diff := diff[MachineId(shellId, i, "") := if after[i] then Active else Stopped];
        }
      }
      nodesDiff := diff;
    }

    /** `_update_paths` on the shell's arrays. */
    method RecomputePaths() returns (ghost dist: array2<Dist>, ghost next: array2<int>)
      requires Valid()
      modifies pathMatrix
      ensures Valid()
      ensures fresh(dist) && fresh(next) && Inv(dist, next, sats)
      ensures forall i, j | 0 <= i < sats && 0 <= j < sats ::
                AtMost(dist[i, j], if i == j then Fin(0) else LinkDist(links[..totalIslLinks], i, j))
      ensures forall i, j | 0 <= i < j < sats :: pathMatrix[i, j] == SatPath(dist, next, i, j, isl)
      ensures StationSatsUpdated(old(Entries(pathMatrix)), pathMatrix, Uplinks(), gsts, dist, next, sats, isl)
      ensures StationPairsUpdated(old(Entries(pathMatrix)), pathMatrix, Uplinks(), gsts, dist, sats, isl)
      ensures forall a, b | 0 <= a < pathMatrix.Length0 && 0 <= b < pathMatrix.Length1 &&
                            !(a < b) && !(sats <= a && b < sats) ::
                pathMatrix[a, b] == old(pathMatrix[a, b])
    {
      LinkEndsInRange();
      dist, next := UpdatePaths(links, totalIslLinks, sats, pathMatrix, gsts, Uplinks(), isl);
    }

    /** Every link of the shell joins two of its satellites. */
    lemma LinkEndsInRange()
      requires Valid()
      ensures forall x | 0 <= x < totalIslLinks :: 0 <= links[x].node1 < sats && 0 <= links[x].node2 < sats
    {
      forall x | 0 <= x < totalIslLinks
        ensures 0 <= links[x].node1 < sats && 0 <= links[x].node2 < sats
      {
        GridInRange(planes, perPlane, x);
      }
    }

    /** The link diff of a step: the changed pairs of the path matrix,
        reported under the machine ids of their nodes and written into the
        reported paths. */
    method ApplyLinkDiff(thr: int) returns (ghost reported: seq<PathLink>)
      requires MatricesValid() && |machineIds| == sats + |gsts|
      modifies this`linkDiff, currPaths
      ensures MatricesValid()
      ensures reported == old(LinkDiff(currPaths, pathMatrix, sats, |gsts|, thr))
      ensures ReportsChanges(reported, old(Entries(currPaths)), pathMatrix, sats, |gsts|, thr)
      ensures EntriesFit(reported, |machineIds|) && linkDiff == DiffMap(machineIds, reported)
      ensures CaughtUp(currPaths, old(Entries(currPaths)), pathMatrix, sats, |gsts|, thr)
    {
      var n := sats + |gsts|;
      ghost var prior := Entries(currPaths);
      reported := LinkDiff(currPaths, pathMatrix, sats, |gsts|, thr);
      LinkDiffCatchesUp(currPaths, pathMatrix, sats, |gsts|, thr);
      ReportedFit(currPaths, pathMatrix, sats, |gsts|, thr);
      var pathDiff, total := NewLinkDiff(currPaths, pathMatrix, sats, |gsts|, thr);
      WriteLinkDiff(pathDiff, total, reported);
      forall a, b | 0 <= a < n && 0 <= b < n
        ensures currPaths[a, b] == Latest(reported, a, b, prior[a][b])
      {
        assert prior[a][b] == old(currPaths[a, b]);
      }
    }

    /** The loop over the first `total` entries of the diff buffer: each is
        entered into the link diff under its nodes' machine ids and its path
        is written into the reported paths. */
    method WriteLinkDiff(pathDiff: array<PathLink>, total: nat, ghost es: seq<PathLink>)
      requires total <= pathDiff.Length && pathDiff[..total] == es
      requires |machineIds| == currPaths.Length0 == currPaths.Length1
      requires EntriesFit(es, |machineIds|)
      modifies this`linkDiff, currPaths
      ensures linkDiff == DiffMap(machineIds, es)
      ensures forall a, b | 0 <= a < currPaths.Length0 && 0 <= b < currPaths.Length1 ::
                currPaths[a, b] == Latest(es, a, b, old(currPaths[a, b]))
    {
      var n := |machineIds|;
      linkDiff := map[];
      for k := 0 to total
        invariant EntriesFit(pathDiff[..k], n)
        invariant linkDiff == DiffMap(machineIds, pathDiff[..k])
        invariant forall a, b | 0 <= a < n && 0 <= b < n ::
                    currPaths[a, b] == Latest(pathDiff[..k], a, b, old(currPaths[a, b]))
      {
        var e := pathDiff[k];
        assert pathDiff[..k + 1] == pathDiff[..k] + [e];
        assert forall j | 0 <= j < k + 1 :: pathDiff[..k + 1][j] == es[j];
        DiffMapStep(machineIds, pathDiff[..k], e);
        forall a, b | 0 <= a < n && 0 <= b < n
          ensures Latest(pathDiff[..k + 1], a, b, old(currPaths[a, b])) ==
                  if e.node1 == a && e.node2 == b then e.path else Latest(pathDiff[..k], a, b, old(currPaths[a, b]))
        {
          LatestStep(pathDiff[..k], e, a, b, old(currPaths[a, b]));
        }
        linkDiff := AddLink(linkDiff, machineIds[e.node1], machineIds[e.node2], Info(machineIds, e));
        currPaths[e.node1, e.node2] := e.path;
      }
    }

    /** The diff part of `step`, run after the flags and links are updated:
        the node diff against `before`, the recomputed paths, the link diff
        and the reported paths. */
    method CalculateDiffs(before: seq<bool>, thr: int)
      returns (ghost dist: array2<Dist>, ghost next: array2<int>, ghost reported: seq<PathLink>)
      requires Valid() && |before| == sats
      modifies this`nodesDiff, this`linkDiff, pathMatrix, currPaths
      ensures Valid()
      ensures nodesDiff == NodeDiff(shellId, before, inBbox, sats)
      ensures Inv(dist, next, sats)
      ensures forall i, j | 0 <= i < j < sats :: pathMatrix[i, j] == SatPath(dist, next, i, j, isl)
      ensures ReportsChanges(reported, old(Entries(currPaths)), pathMatrix, sats, |gsts|, thr)
      ensures EntriesFit(reported, |machineIds|) && linkDiff == DiffMap(machineIds, reported)
      ensures CaughtUp(currPaths, old(Entries(currPaths)), pathMatrix, sats, |gsts|, thr)
    {
      dist, next := RecomputePaths();
      CalculateNodeDiff(before);
      reported := ApplyLinkDiff(thr);
    }

    /** `step` with `newInBbox` the satellites' new bounding-box flags and
        the link lengths they produce: the links are always updated; with
        `calculateDiffs` the node diff, the paths, the link diff and the
        reported paths are worked out too, otherwise they keep their
        values. */
    method Step(newInBbox: seq<bool>, islDist: seq<nat>, gstDist: seq<seq<nat>>, calculateDiffs: bool, thr: int)
      returns (ghost dist: array2?<Dist>, ghost next: array2?<int>, ghost reported: seq<PathLink>)
      requires Valid()
      requires |newInBbox| == sats && |islDist| == totalIslLinks
      requires |gstDist| == |gsts| && forall g | 0 <= g < |gstDist| :: |gstDist[g]| == sats
      modifies this, links, gstLinks, pathMatrix, currPaths
      ensures Valid() && inBbox == newInBbox
      ensures forall k | 0 <= k < totalIslLinks ::
                links[k] == old(links[k]).(active := islDist[k] <= maxIslRange, distance := islDist[k])
      ensures Uplinks() == AllScans(gsts, gstDist, sats, |gsts|)
      ensures !calculateDiffs ==>
                nodesDiff == old(nodesDiff) && linkDiff == old(linkDiff) &&
                unchanged(pathMatrix) && unchanged(currPaths)
      ensures calculateDiffs ==> nodesDiff == NodeDiff(shellId, old(inBbox), newInBbox, sats)
      ensures calculateDiffs ==>
                dist != null && next != null && Inv(dist, next, sats) &&
                (forall i, j | 0 <= i < j < sats :: pathMatrix[i, j] == SatPath(dist, next, i, j, isl))
      ensures calculateDiffs ==> ReportsChanges(reported, old(Entries(currPaths)), pathMatrix, sats, |gsts|, thr)
      ensures calculateDiffs ==> EntriesFit(reported, |machineIds|) && linkDiff == DiffMap(machineIds, reported)
      ensures calculateDiffs ==> CaughtUp(currPaths, old(Entries(currPaths)), pathMatrix, sats, |gsts|, thr)
    {
      var before := inBbox;
      inBbox := newInBbox;
      dist, next, reported := null, null, [];
      UpdateGridLinks(islDist, gstDist);
      if calculateDiffs {
        dist, next, reported := CalculateDiffs(before, thr);
      }
    }
  }
  /** The entries of the link diff index the machine ids, and so do their
      hops, which the path matrix keeps in range. */
  lemma ReportedFit(curr: array2<Path>, pm: array2<Path>, sats: nat, gsts: nat, thr: int)
    requires Square(curr, pm, sats + gsts) && HopsInRange(pm, sats + gsts)
    ensures EntriesFit(LinkDiff(curr, pm, sats, gsts, thr), sats + gsts)
  {
    LinkDiffExact(curr, pm, sats, gsts, thr);
  }
}
