/** What a shell reports after a step: the satellites whose bounding-box
    membership changed, and the node pairs whose path changed since the
    paths last reported, which then become the reported paths. Node `S + g`
    is ground station `g`, after the `S` satellites. */
module ShellDiff {
  import opened ShellPaths

  const Two31: int := 0x8000_0000
  const Two32: int := 0x1_0000_0000

  /** A 32-bit value read as a signed 32-bit integer (numpy's `int32`
      conversion): the low 32 bits in two's complement. */
  function Int32(x: int): int
  {
    var m := x % Two32;
    if m >= Two31 then m - Two32 else m
  }

  /** The conversion yields a signed 32-bit value congruent to `x` modulo
      2^32, and leaves a value already in range unchanged. */
  lemma Int32Wraps(x: int)
    ensures -Two31 <= Int32(x) < Two31 && (x - Int32(x)) % Two32 == 0
    ensures -Two31 <= x < Two31 ==> Int32(x) == x
  {
  }

  /** The delay gap as the compiled source computes it: both `uint32` delays
      are read as `int32`, and numba then types the subtraction and the
      absolute value as 64-bit integers, in which neither can overflow. */
  function DelayGap(d1: nat, d2: nat): int
  {
    var x := Int32(d1) - Int32(d2);
    if x < 0 then -x else x
  }

  /** For delays below 2^31 microseconds the gap is the plain distance. */
  lemma DelayGapExact(d1: nat, d2: nat)
    requires d1 < Two31 && d2 < Two31
    ensures DelayGap(d1, d2) == if d1 >= d2 then d1 - d2 else d2 - d1
  {
    Int32Wraps(d1);
    Int32Wraps(d2);
  }

  /** A delay of 2^31 microseconds or more reads as negative: against a delay
      of 0 the delay 2^31 shows a gap of 2^31, and the delay 2^32 - 1 a gap
      of 1. */
  lemma DelayGapOfLargeDelays()
    ensures DelayGap(Two31, 0) == Two31
    ensures DelayGap(Two32 - 1, 0) == 1
  {
  }

  /** A path counts as changed when the delay moved by more than the
      threshold, or activity, bandwidth or the next hop differ. The previous
      hop is not compared. */
  predicate Differs(p1: Path, p2: Path, thr: int)
  {
    DelayGap(p1.delay, p2.delay) > thr || p1.active != p2.active ||
    p1.bandwidth != p2.bandwidth || p1.nextHop != p2.nextHop
  }

  /** With a threshold that is not negative, a path never differs from
      itself. */
  lemma SameNeverDiffers(p: Path, thr: int)
    requires thr >= 0
    ensures !Differs(p, p, thr)
  {
  }

  /** The node pairs the diff looks at: satellite pairs `n1 < n2`; and from
      each station, every other node, but a pair of stations only from the
      lower one. */
  predicate Visited(sats: nat, gsts: nat, n1: int, n2: int)
  {
    (0 <= n1 < n2 < sats) ||
    (sats <= n1 < sats + gsts && 0 <= n2 < sats + gsts && n1 != n2 && !(n2 >= sats && n1 > n2))
  }

  /** Every unordered pair of distinct nodes is looked at exactly one way
      round. */
  lemma VisitedOnce(sats: nat, gsts: nat, n1: nat, n2: nat)
    requires n1 < sats + gsts && n2 < sats + gsts && n1 != n2
    ensures Visited(sats, gsts, n1, n2) != Visited(sats, gsts, n2, n1)
  {
  }

  /** An entry of the path diff (`PATH_LINK_DTYPE`). */
  datatype PathLink = PathLink(node1: int, node2: int, path: Path)

  /** The reported-path and path matrices of a shell of `n` nodes. */
  predicate Square(curr: array2<Path>, pm: array2<Path>, n: nat)
  {
    curr.Length0 == n == curr.Length1 && pm.Length0 == n == pm.Length1
  }

  /** The changed pairs of row `n1` from column `n2` on, in column order,
      each with its new path. */
  function RowFrom(curr: array2<Path>, pm: array2<Path>, sats: nat, gsts: nat, thr: int, n1: nat, n2: nat)
    : seq<PathLink>
    reads curr, pm
    requires Square(curr, pm, sats + gsts) && n1 < sats + gsts && n2 <= sats + gsts
    decreases sats + gsts - n2
  {
    if n2 == sats + gsts then []
    else
      (if Visited(sats, gsts, n1, n2) && Differs(curr[n1, n2], pm[n1, n2], thr)
       then [PathLink(n1, n2, pm[n1, n2])] else []) +
      RowFrom(curr, pm, sats, gsts, thr, n1, n2 + 1)
  }

  /** The changed pairs of rows `n1` on, in row-major order. */
  function RowsFrom(curr: array2<Path>, pm: array2<Path>, sats: nat, gsts: nat, thr: int, n1: nat)
    : seq<PathLink>
    reads curr, pm
    requires Square(curr, pm, sats + gsts) && n1 <= sats + gsts
    decreases sats + gsts - n1
  {
    if n1 == sats + gsts then []
    else RowFrom(curr, pm, sats, gsts, thr, n1, 0) + RowsFrom(curr, pm, sats, gsts, thr, n1 + 1)
  }

  /** The link diff: every visited pair whose path changed, in row-major
      order, with its new path. */
  function LinkDiff(curr: array2<Path>, pm: array2<Path>, sats: nat, gsts: nat, thr: int): seq<PathLink>
    reads curr, pm
    requires Square(curr, pm, sats + gsts)
  {
    RowsFrom(curr, pm, sats, gsts, thr, 0)
  }

  /** `a` comes strictly before `b` in row-major order. */
  predicate Before(a: PathLink, b: PathLink)
  {
    a.node1 < b.node1 || (a.node1 == b.node1 && a.node2 < b.node2)
  }

  /** A changed pair of a row is in the row's part from `n2` on exactly when
      its column is at least `n2`; that part is in column order and no longer
      than the columns left. */
  lemma RowFromExact(curr: array2<Path>, pm: array2<Path>, sats: nat, gsts: nat, thr: int, n1: nat, n2: nat)
    requires Square(curr, pm, sats + gsts) && n1 < sats + gsts && n2 <= sats + gsts
    ensures var r := RowFrom(curr, pm, sats, gsts, thr, n1, n2);
            |r| <= sats + gsts - n2 &&
            (forall k | 0 <= k < |r| ::
               r[k].node1 == n1 && n2 <= r[k].node2 < sats + gsts &&
               Visited(sats, gsts, n1, r[k].node2) && Differs(curr[n1, r[k].node2], pm[n1, r[k].node2], thr) &&
               r[k].path == pm[n1, r[k].node2]) &&
            (forall k, l | 0 <= k < l < |r| :: r[k].node2 < r[l].node2) &&
            (forall b | n2 <= b < sats + gsts && Visited(sats, gsts, n1, b) && Differs(curr[n1, b], pm[n1, b], thr) ::
               PathLink(n1, b, pm[n1, b]) in r)
  {
    RowFromSound(curr, pm, sats, gsts, thr, n1, n2);
    RowFromComplete(curr, pm, sats, gsts, thr, n1, n2);
  }

  /** Every entry of a row's part from `n2` on is a changed visited pair of
      that row right of `n2`, with its new path, in column order. */
  lemma {:induction false} RowFromSound(curr: array2<Path>, pm: array2<Path>, sats: nat, gsts: nat, thr: int,
                                        n1: nat, n2: nat)
    requires Square(curr, pm, sats + gsts) && n1 < sats + gsts && n2 <= sats + gsts
    ensures var r := RowFrom(curr, pm, sats, gsts, thr, n1, n2);
            |r| <= sats + gsts - n2 &&
            (forall k | 0 <= k < |r| ::
               r[k].node1 == n1 && n2 <= r[k].node2 < sats + gsts &&
               Visited(sats, gsts, n1, r[k].node2) && Differs(curr[n1, r[k].node2], pm[n1, r[k].node2], thr) &&
               r[k].path == pm[n1, r[k].node2]) &&
            (forall k, l | 0 <= k < l < |r| :: r[k].node2 < r[l].node2)
    decreases sats + gsts - n2
  {
    if n2 < sats + gsts {
      RowFromSound(curr, pm, sats, gsts, thr, n1, n2 + 1);
    }
  }

  /** Every changed visited pair of a row right of `n2` is in the row's part
      from `n2` on. */
  lemma {:induction false} RowFromComplete(curr: array2<Path>, pm: array2<Path>, sats: nat, gsts: nat, thr: int,
                                           n1: nat, n2: nat)
    requires Square(curr, pm, sats + gsts) && n1 < sats + gsts && n2 <= sats + gsts
    ensures forall b | n2 <= b < sats + gsts && Visited(sats, gsts, n1, b) && Differs(curr[n1, b], pm[n1, b], thr) ::
              PathLink(n1, b, pm[n1, b]) in RowFrom(curr, pm, sats, gsts, thr, n1, n2)
    decreases sats + gsts - n2
  {
    var n := sats + gsts;
    if n2 < n {
      RowFromComplete(curr, pm, sats, gsts, thr, n1, n2 + 1);
      var changed := Visited(sats, gsts, n1, n2) && Differs(curr[n1, n2], pm[n1, n2], thr);
      var head := if changed then [PathLink(n1, n2, pm[n1, n2])] else [];
      var rest := RowFrom(curr, pm, sats, gsts, thr, n1, n2 + 1);
      assert RowFrom(curr, pm, sats, gsts, thr, n1, n2) == head + rest;
      forall b | n2 <= b < n && Visited(sats, gsts, n1, b) && Differs(curr[n1, b], pm[n1, b], thr)
        ensures PathLink(n1, b, pm[n1, b]) in head + rest
      {
        if b == n2 {
          assert PathLink(n1, b, pm[n1, b]) in head;
        } else {
          assert PathLink(n1, b, pm[n1, b]) in rest;
        }
      }
    }
  }


  /** The rows from `n1` on hold exactly the changed visited pairs of those
      rows, in strictly increasing row-major order, at most `sats + gsts`
      per row. */
  lemma {:induction false} RowsFromExact(curr: array2<Path>, pm: array2<Path>, sats: nat, gsts: nat, thr: int,
                                         n1: nat)
    requires Square(curr, pm, sats + gsts) && n1 <= sats + gsts
    ensures var r := RowsFrom(curr, pm, sats, gsts, thr, n1);
            |r| <= (sats + gsts - n1) * (sats + gsts) &&
            (forall k | 0 <= k < |r| ::
               n1 <= r[k].node1 < sats + gsts && 0 <= r[k].node2 < sats + gsts &&
               Visited(sats, gsts, r[k].node1, r[k].node2) &&
               Differs(curr[r[k].node1, r[k].node2], pm[r[k].node1, r[k].node2], thr) &&
               r[k].path == pm[r[k].node1, r[k].node2]) &&
            (forall k, l | 0 <= k < l < |r| :: Before(r[k], r[l])) &&
            (forall a, b | n1 <= a < sats + gsts && 0 <= b < sats + gsts &&
                           Visited(sats, gsts, a, b) && Differs(curr[a, b], pm[a, b], thr) ::
               PathLink(a, b, pm[a, b]) in r)
    decreases sats + gsts - n1
  {
    var n := sats + gsts;
    if n1 < n {
      RowFromExact(curr, pm, sats, gsts, thr, n1, 0);
      RowsFromExact(curr, pm, sats, gsts, thr, n1 + 1);
      var row, rest := RowFrom(curr, pm, sats, gsts, thr, n1, 0), RowsFrom(curr, pm, sats, gsts, thr, n1 + 1);
      assert (n - n1) * n == n + (n - (n1 + 1)) * n;
      forall a, b | n1 <= a < n && 0 <= b < n && Visited(sats, gsts, a, b) && Differs(curr[a, b], pm[a, b], thr)
        ensures PathLink(a, b, pm[a, b]) in row + rest
      {
        if a == n1 {
          assert PathLink(a, b, pm[a, b]) in row;
        } else {
          assert PathLink(a, b, pm[a, b]) in rest;
        }
      }
    }
  }

  /** The link diff holds a pair with its new path exactly when the pair is
      visited and its path changed; it lists each such pair once, in
      strictly increasing row-major order, and has at most `(S + G)^2`
      entries, the size of the diff buffer. */
  lemma LinkDiffExact(curr: array2<Path>, pm: array2<Path>, sats: nat, gsts: nat, thr: int)
    requires Square(curr, pm, sats + gsts)
    ensures var r := LinkDiff(curr, pm, sats, gsts, thr);
            |r| <= (sats + gsts) * (sats + gsts) &&
            (forall k, l | 0 <= k < l < |r| :: Before(r[k], r[l])) &&
            (forall a, b | 0 <= a < sats + gsts && 0 <= b < sats + gsts ::
               PathLink(a, b, pm[a, b]) in r <==> Visited(sats, gsts, a, b) && Differs(curr[a, b], pm[a, b], thr)) &&
            (forall e | e in r ::
               0 <= e.node1 < sats + gsts && 0 <= e.node2 < sats + gsts && e.path == pm[e.node1, e.node2])
  {
    RowsFromExact(curr, pm, sats, gsts, thr, 0);
  }

  /** What a link diff `r` reports against the reported paths `prior`:
      every visited pair whose path changed, with its new path, and nothing
      else, in strictly increasing row-major order. */
  predicate ReportsChanges(r: seq<PathLink>, prior: seq<seq<Path>>, pm: array2<Path>, sats: nat, gsts: nat, thr: int)
    reads pm
    requires pm.Length0 == sats + gsts == pm.Length1
    requires |prior| == pm.Length0 && forall a | 0 <= a < |prior| :: |prior[a]| == pm.Length1
  {
    (forall a, b | 0 <= a < sats + gsts && 0 <= b < sats + gsts ::
       PathLink(a, b, pm[a, b]) in r <==> Visited(sats, gsts, a, b) && Differs(prior[a][b], pm[a, b], thr)) &&
    (forall e | e in r ::
       0 <= e.node1 < sats + gsts && 0 <= e.node2 < sats + gsts && e.path == pm[e.node1, e.node2]) &&
    (forall k, l | 0 <= k < l < |r| :: Before(r[k], r[l]))
  }

  /** The reported paths after a diff against `prior`: a visited pair whose
      path changed holds its new path, every other pair what it held. */
  predicate CaughtUp(curr: array2<Path>, prior: seq<seq<Path>>, pm: array2<Path>, sats: nat, gsts: nat, thr: int)
    reads curr, pm
    requires Square(curr, pm, sats + gsts)
    requires |prior| == pm.Length0 && forall a | 0 <= a < |prior| :: |prior[a]| == pm.Length1
  {
    forall a, b | 0 <= a < sats + gsts && 0 <= b < sats + gsts ::
      curr[a, b] == if Visited(sats, gsts, a, b) && Differs(prior[a][b], pm[a, b], thr) then pm[a, b] else prior[a][b]
  }

  /** The link diff reports the changes against the reported paths, and
      writing it over them brings them up to date. */
  lemma LinkDiffCatchesUp(curr: array2<Path>, pm: array2<Path>, sats: nat, gsts: nat, thr: int)
    requires Square(curr, pm, sats + gsts)
    ensures ReportsChanges(LinkDiff(curr, pm, sats, gsts, thr), Entries(curr), pm, sats, gsts, thr)
    ensures forall a, b | 0 <= a < sats + gsts && 0 <= b < sats + gsts ::
              Latest(LinkDiff(curr, pm, sats, gsts, thr), a, b, Entries(curr)[a][b]) ==
              if Visited(sats, gsts, a, b) && Differs(Entries(curr)[a][b], pm[a, b], thr)
              then pm[a, b] else Entries(curr)[a][b]
  {
    LinkDiffExact(curr, pm, sats, gsts, thr);
    forall a, b | 0 <= a < sats + gsts && 0 <= b < sats + gsts
      ensures Latest(LinkDiff(curr, pm, sats, gsts, thr), a, b, curr[a, b]) ==
              if Visited(sats, gsts, a, b) && Differs(curr[a, b], pm[a, b], thr) then pm[a, b] else curr[a, b]
    {
      LatestOfLinkDiff(curr, pm, sats, gsts, thr, a, b);
    }
  }

  /** The link diff fits the diff buffer of `(S + G)^2` entries. */
  lemma LinkDiffFits(curr: array2<Path>, pm: array2<Path>, sats: nat, gsts: nat, thr: int)
    requires Square(curr, pm, sats + gsts)
    ensures |LinkDiff(curr, pm, sats, gsts, thr)| <= (sats + gsts) * (sats + gsts)
  {
    LinkDiffExact(curr, pm, sats, gsts, thr);
  }

  /** A satellite row has no changed pair at or left of the diagonal. */
  lemma {:induction false} SatRowHead(curr: array2<Path>, pm: array2<Path>, sats: nat, gsts: nat, thr: int,
                                      n1: nat, n2: nat)
    requires Square(curr, pm, sats + gsts) && n1 < sats && n2 <= n1 + 1
    ensures RowFrom(curr, pm, sats, gsts, thr, n1, n2) == RowFrom(curr, pm, sats, gsts, thr, n1, n1 + 1)
    decreases n1 + 1 - n2
  {
    if n2 < n1 + 1 {
      SatRowHead(curr, pm, sats, gsts, thr, n1, n2 + 1);
    }
  }

  /** A satellite row has no changed pair with a station. */
  lemma {:induction false} SatRowTail(curr: array2<Path>, pm: array2<Path>, sats: nat, gsts: nat, thr: int,
                                      n1: nat, n2: nat)
    requires Square(curr, pm, sats + gsts) && n1 < sats && sats <= n2 <= sats + gsts
    ensures RowFrom(curr, pm, sats, gsts, thr, n1, n2) == []
    decreases sats + gsts - n2
  {
    if n2 < sats + gsts {
      SatRowTail(curr, pm, sats, gsts, thr, n1, n2 + 1);
    }
  }

  /** The diff buffer's written entries `buf`, followed by the entries
      `rest` still to be written, make up `target`. */
  predicate Filled(buf: seq<PathLink>, rest: seq<PathLink>, target: seq<PathLink>)
  {
    buf + rest == target
  }

  /** The inner loop of `_numba_get_link_diff` over a satellite row `n1`:
      appends the changed pairs right of the diagonal after the `count0`
      entries written so far, which leaves `rest` to be written. */
  method SatRowDiff(curr: array2<Path>, pm: array2<Path>, pathDiff: array<PathLink>, sats: nat, gsts: nat,
                    thr: int, n1: nat, count0: nat, ghost rest: seq<PathLink>, ghost target: seq<PathLink>)
    returns (count: nat)
    requires Square(curr, pm, sats + gsts) && n1 < sats
    requires count0 <= pathDiff.Length && |target| <= pathDiff.Length
    requires Filled(pathDiff[..count0], RowFrom(curr, pm, sats, gsts, thr, n1, 0) + rest, target)
    modifies pathDiff
    ensures count <= pathDiff.Length && Filled(pathDiff[..count], rest, target)
  {
    SatRowHead(curr, pm, sats, gsts, thr, n1, 0);
    count := count0;
    for n2 := n1 + 1 to sats
      invariant count <= pathDiff.Length
      invariant Filled(pathDiff[..count], RowFrom(curr, pm, sats, gsts, thr, n1, n2) + rest, target)
    {
      count := PairDiff(curr, pm, pathDiff, sats, gsts, thr, n1, n2, count, rest, target);
    }
    SatRowTail(curr, pm, sats, gsts, thr, n1, sats);
    assert [] + rest == rest;
  }

  /** The inner loop of `_numba_get_link_diff` over a station row `n1`:
      skips the diagonal and the stations below `n1`, and appends the
      changed pairs after the `count0` entries written so far, which leaves
      `rest` to be written. */
  method GstRowDiff(curr: array2<Path>, pm: array2<Path>, pathDiff: array<PathLink>, sats: nat, gsts: nat,
                    thr: int, n1: nat, count0: nat, ghost rest: seq<PathLink>, ghost target: seq<PathLink>)
    returns (count: nat)
    requires Square(curr, pm, sats + gsts) && sats <= n1 < sats + gsts
    requires count0 <= pathDiff.Length && |target| <= pathDiff.Length
    requires Filled(pathDiff[..count0], RowFrom(curr, pm, sats, gsts, thr, n1, 0) + rest, target)
    modifies pathDiff
    ensures count <= pathDiff.Length && Filled(pathDiff[..count], rest, target)
  {
    count := count0;
    for n2 := 0 to sats + gsts
      invariant count <= pathDiff.Length
      invariant Filled(pathDiff[..count], RowFrom(curr, pm, sats, gsts, thr, n1, n2) + rest, target)
    {
      if n1 == n2 {
        continue;
      }
      if n2 >= sats && n1 > n2 {
        continue;
      }
      count := PairDiff(curr, pm, pathDiff, sats, gsts, thr, n1, n2, count, rest, target);
    }
    assert [] + rest == rest;
  }

  /** The body both inner loops of `_numba_get_link_diff` share: compares
      the reported and the new path of a visited pair `(n1, n2)` and appends
      the pair with its new path when the path changed. */
  method PairDiff(curr: array2<Path>, pm: array2<Path>, pathDiff: array<PathLink>, sats: nat, gsts: nat,
                  thr: int, n1: nat, n2: nat, count0: nat, ghost rest: seq<PathLink>, ghost target: seq<PathLink>)
    returns (count: nat)
    requires Square(curr, pm, sats + gsts) && n1 < sats + gsts && n2 < sats + gsts && Visited(sats, gsts, n1, n2)
    requires count0 <= pathDiff.Length && |target| <= pathDiff.Length
    requires Filled(pathDiff[..count0], RowFrom(curr, pm, sats, gsts, thr, n1, n2) + rest, target)
    modifies pathDiff
    ensures count <= pathDiff.Length
    ensures Filled(pathDiff[..count], RowFrom(curr, pm, sats, gsts, thr, n1, n2 + 1) + rest, target)
  {
    count := count0;
    var p1, p2 := curr[n1, n2], pm[n1, n2];
    if Differs(p1, p2, thr) {
      ghost var after := RowFrom(curr, pm, sats, gsts, thr, n1, n2 + 1);
      assert RowFrom(curr, pm, sats, gsts, thr, n1, n2) == [PathLink(n1, n2, p2)] + after;
      assert [PathLink(n1, n2, p2)] + after + rest == [PathLink(n1, n2, p2)] + (after + rest);
      count := Append(pathDiff, count, PathLink(n1, n2, p2), after + rest, target);
    }
  }

  /** Writes `e` at position `count0` of the diff buffer, when the entries
      written so far followed by `e` and then `rest` make up `target`. */
  method Append(pathDiff: array<PathLink>, count0: nat, e: PathLink, ghost rest: seq<PathLink>,
                ghost target: seq<PathLink>) returns (count: nat)
    requires count0 <= pathDiff.Length && Filled(pathDiff[..count0], [e] + rest, target)
    requires |target| <= pathDiff.Length
    modifies pathDiff
    ensures count == count0 + 1 <= pathDiff.Length && Filled(pathDiff[..count], rest, target)
  {
    ghost var pre := pathDiff[..count0];
    pathDiff[count0] := e;
    count := count0 + 1;
    assert pathDiff[..count] == pre + [e];
    assert pre + [e] + rest == pre + ([e] + rest);
  }

  /** The satellite rows of `_numba_get_link_diff`, each right of the
      diagonal, written from position 0; the station rows are left to be
      written. */
  method SatRowsDiff(curr: array2<Path>, pm: array2<Path>, pathDiff: array<PathLink>,
                     sats: nat, gsts: nat, thr: int) returns (count: nat)
    requires Square(curr, pm, sats + gsts)
    requires |LinkDiff(curr, pm, sats, gsts, thr)| <= pathDiff.Length
    modifies pathDiff
    ensures count <= pathDiff.Length
    ensures Filled(pathDiff[..count], RowsFrom(curr, pm, sats, gsts, thr, sats), LinkDiff(curr, pm, sats, gsts, thr))
  {
    ghost var all := LinkDiff(curr, pm, sats, gsts, thr);
    count := 0;
    for n1 := 0 to sats
      invariant count <= pathDiff.Length
      invariant Filled(pathDiff[..count], RowsFrom(curr, pm, sats, gsts, thr, n1), all)
    {
      assert RowsFrom(curr, pm, sats, gsts, thr, n1) ==
             RowFrom(curr, pm, sats, gsts, thr, n1, 0) + RowsFrom(curr, pm, sats, gsts, thr, n1 + 1);
      count := SatRowDiff(curr, pm, pathDiff, sats, gsts, thr, n1, count, RowsFrom(curr, pm, sats, gsts, thr, n1 + 1),
                          all);
    }
  }

  /** The diff buffer of `_calculate_link_diff`: a fresh array of
      `(S + G)^2` entries, filled by `GetLinkDiff`. */
  method NewLinkDiff(curr: array2<Path>, pm: array2<Path>, sats: nat, gsts: nat, thr: int)
    returns (pathDiff: array<PathLink>, count: nat)
    requires Square(curr, pm, sats + gsts)
    ensures fresh(pathDiff)
    ensures count <= pathDiff.Length && pathDiff[..count] == LinkDiff(curr, pm, sats, gsts, thr)
  {
    var n := sats + gsts;
    pathDiff := new PathLink[n * n](_ => PathLink(0, 0, Path(false, 0, 0, 0, 0)));
    count := GetLinkDiff(curr, pm, pathDiff, sats, gsts, thr);
  }

  /** `_numba_get_link_diff`: writes the changed pairs into `pathDiff` from
      position 0 on, the satellite rows right of the diagonal, then the
      station rows, and returns how many it wrote. */
  method GetLinkDiff(curr: array2<Path>, pm: array2<Path>, pathDiff: array<PathLink>,
                     sats: nat, gsts: nat, thr: int) returns (count: nat)
    requires Square(curr, pm, sats + gsts) && pathDiff.Length == (sats + gsts) * (sats + gsts)
    modifies pathDiff
    ensures count <= pathDiff.Length && pathDiff[..count] == LinkDiff(curr, pm, sats, gsts, thr)
  {
    ghost var all := LinkDiff(curr, pm, sats, gsts, thr);
    assert |all| <= pathDiff.Length by {
      LinkDiffFits(curr, pm, sats, gsts, thr);
    }
    count := SatRowsDiff(curr, pm, pathDiff, sats, gsts, thr);
    for n1 := sats to sats + gsts
      invariant count <= pathDiff.Length
      invariant Filled(pathDiff[..count], RowsFrom(curr, pm, sats, gsts, thr, n1), all)
    {
      assert RowsFrom(curr, pm, sats, gsts, thr, n1) ==
             RowFrom(curr, pm, sats, gsts, thr, n1, 0) + RowsFrom(curr, pm, sats, gsts, thr, n1 + 1);
      count := GstRowDiff(curr, pm, pathDiff, sats, gsts, thr, n1, count, RowsFrom(curr, pm, sats, gsts, thr, n1 + 1),
                          all);
    }
  }

  /** A node as the rest of the system names it (`MachineID`): satellites
      carry the shell identifier as group and no name, ground stations group
      0 and their name. */
  datatype MachineId = MachineId(group: nat, id: nat, name: string)

  /** The state a satellite machine is to be put in. */
  datatype VmState = Active | Stopped

  /** A reported path (`Link`). */
  datatype LinkInfo = LinkInfo(latencyUs: nat, bandwidthKbits: nat, blocked: bool, nextHop: MachineId,
                               prevHop: MachineId)

  /** The machine ids of a shell in node order: its `sats` satellites, then
      the ground stations named `names`. */
  function MachineIds(shellId: nat, sats: nat, names: seq<string>): (ids: seq<MachineId>)
    ensures |ids| == sats + |names|
  {
    seq(sats, i requires 0 <= i < sats => MachineId(shellId, i, "")) + seq(|names|, g requires 0 <= g < |names| => MachineId(0, g, names[g]))
  }

  /** With a shell identifier other than 0 every node has its own machine
      id. */
  lemma MachineIdsDistinct(shellId: nat, sats: nat, names: seq<string>)
    requires shellId != 0
    ensures var ids := MachineIds(shellId, sats, names);
            forall a, b | 0 <= a < b < |ids| :: ids[a] != ids[b]
  {
  }

  /** `machine_ids[node]` with Python's indexing: a negative node counts from
      the end. */
  function MachineIdAt(ids: seq<MachineId>, node: int): MachineId
    requires -|ids| <= node < |ids|
  {
    if node < 0 then ids[|ids| + node] else ids[node]
  }

  /** The hop -1 of a path without one names the last node: the last ground
      station when there is one. */
  lemma MissingHopNamesLastNode(shellId: nat, sats: nat, names: seq<string>)
    requires |names| > 0
    ensures MachineIdAt(MachineIds(shellId, sats, names), -1) == MachineId(0, |names| - 1, names[|names| - 1])
  {
  }

  /** The nodes and hops of entry `e` index `n` machine ids. */
  predicate EntryFits(e: PathLink, n: nat)
  {
    0 <= e.node1 < n && 0 <= e.node2 < n &&
    -(n as int) <= e.path.nextHop < n && -(n as int) <= e.path.prevHop < n
  }

  /** The nodes and hops of every entry index the machine ids. */
  predicate EntriesFit(es: seq<PathLink>, n: nat)
  {
    forall k | 0 <= k < |es| :: EntryFits(es[k], n)
  }

  /** The reported link of a path diff entry. */
  function Info(ids: seq<MachineId>, e: PathLink): LinkInfo
    requires -|ids| <= e.path.nextHop < |ids| && -|ids| <= e.path.prevHop < |ids|
  {
    LinkInfo(e.path.delay, e.path.bandwidth, !e.path.active,
             MachineIdAt(ids, e.path.nextHop), MachineIdAt(ids, e.path.prevHop))
  }

  /** `link_diff.setdefault(n1, {})[n2] = link`. */
  function AddLink(m: map<MachineId, map<MachineId, LinkInfo>>, n1: MachineId, n2: MachineId, l: LinkInfo)
    : map<MachineId, map<MachineId, LinkInfo>>
  {
    m[n1 := (if n1 in m then m[n1] else map[])[n2 := l]]
  }

  /** The link diff map after the entries `es`, one after the other, from an
      empty map. */
  function DiffMap(ids: seq<MachineId>, es: seq<PathLink>): map<MachineId, map<MachineId, LinkInfo>>
    requires EntriesFit(es, |ids|)
  {
    if |es| == 0 then map[]
    else
      var e := es[|es| - 1];
      AddLink(DiffMap(ids, es[..|es| - 1]), ids[e.node1], ids[e.node2], Info(ids, e))
  }

  /** Appending an entry adds its reported link under its two machine ids. */
  lemma DiffMapStep(ids: seq<MachineId>, es: seq<PathLink>, e: PathLink)
    requires EntriesFit(es, |ids|) && EntryFits(e, |ids|)
    ensures EntriesFit(es + [e], |ids|)
    ensures DiffMap(ids, es + [e]) == AddLink(DiffMap(ids, es), ids[e.node1], ids[e.node2], Info(ids, e))
  {
    assert (es + [e])[..|es|] == es;
  }

  /** Different entries name different node pairs. */
  predicate KeysDistinct(es: seq<PathLink>)
  {
    forall k, l | 0 <= k < l < |es| :: es[k].node1 != es[l].node1 || es[k].node2 != es[l].node2
  }

  /** Machine ids `ids[0 .. n - 1]` are all different. */
  predicate IdsDistinct(ids: seq<MachineId>)
  {
    forall a, b | 0 <= a < b < |ids| :: ids[a] != ids[b]
  }

  /** When the machine ids are distinct and every node pair comes once, the
      link diff map holds every entry's reported link under its two nodes'
      machine ids. */
  lemma {:induction false} DiffMapHas(ids: seq<MachineId>, es: seq<PathLink>, k: nat)
    requires EntriesFit(es, |ids|) && IdsDistinct(ids) && KeysDistinct(es) && k < |es|
    ensures ids[es[k].node1] in DiffMap(ids, es) && ids[es[k].node2] in DiffMap(ids, es)[ids[es[k].node1]]
    ensures DiffMap(ids, es)[ids[es[k].node1]][ids[es[k].node2]] == Info(ids, es[k])
  {
    var pre, e := es[..|es| - 1], es[|es| - 1];
    if k < |es| - 1 {
      assert EntriesFit(pre, |ids|) && KeysDistinct(pre);
      assert es[k] == pre[k];
      DiffMapHas(ids, pre, k);
      assert es[k].node1 != e.node1 || es[k].node2 != e.node2;
    }
  }

  /** Every key pair of the link diff map comes from an entry. */
  lemma {:induction false} DiffMapOnly(ids: seq<MachineId>, es: seq<PathLink>, a: MachineId, b: MachineId)
    requires EntriesFit(es, |ids|)
    requires a in DiffMap(ids, es) && b in DiffMap(ids, es)[a]
    ensures exists k | 0 <= k < |es| :: ids[es[k].node1] == a && ids[es[k].node2] == b
  {
    var pre, e := es[..|es| - 1], es[|es| - 1];
    if a == ids[e.node1] && b == ids[e.node2] {
      assert ids[es[|es| - 1].node1] == a && ids[es[|es| - 1].node2] == b;
    } else {
      assert EntriesFit(pre, |ids|);
      DiffMapOnly(ids, pre, a, b);
      var k :| 0 <= k < |pre| && ids[pre[k].node1] == a && ids[pre[k].node2] == b;
      assert es[k] == pre[k];
    }
  }

  /** Entries in strictly increasing row-major order name every node pair
      once. */
  lemma SortedKeysDistinct(es: seq<PathLink>)
    requires forall k, l | 0 <= k < l < |es| :: Before(es[k], es[l])
    ensures KeysDistinct(es)
  {
  }

  /** The path the last entry for `(a, b)` among `es` carries, `d` when there
      is none: what `curr_paths[a][b]` holds after the entries are written
      one after the other. */
  function Latest(es: seq<PathLink>, a: int, b: int, d: Path): Path
  {
    if |es| == 0 then d
    else if es[|es| - 1].node1 == a && es[|es| - 1].node2 == b then es[|es| - 1].path
    else Latest(es[..|es| - 1], a, b, d)
  }

  /** Appending an entry for `(a, b)` makes its path the latest there. */
  lemma LatestStep(es: seq<PathLink>, e: PathLink, a: int, b: int, d: Path)
    ensures Latest(es + [e], a, b, d) == if e.node1 == a && e.node2 == b then e.path else Latest(es, a, b, d)
  {
    assert (es + [e])[..|es|] == es;
  }

  /** When every entry carries the path of `pm` at its node pair, writing the
      entries leaves `pm[a, b]` at `(a, b)` when an entry names the pair, and
      `d` otherwise. */
  lemma {:induction false} LatestOfEntries(es: seq<PathLink>, pm: array2<Path>, a: int, b: int, d: Path)
    requires forall e | e in es :: 0 <= e.node1 < pm.Length0 && 0 <= e.node2 < pm.Length1 && e.path == pm[e.node1, e.node2]
    requires 0 <= a < pm.Length0 && 0 <= b < pm.Length1
    ensures Latest(es, a, b, d) == if PathLink(a, b, pm[a, b]) in es then pm[a, b] else d
  {
    if |es| > 0 {
      var pre := es[..|es| - 1];
      assert forall e | e in pre :: e in es;
      LatestOfEntries(pre, pm, a, b, d);
      assert es == pre + [es[|es| - 1]];
    }
  }

  /** Writing the link diff into the reported paths changes exactly the
      visited pairs whose path changed, to their new path. */
  lemma LatestOfLinkDiff(curr: array2<Path>, pm: array2<Path>, sats: nat, gsts: nat, thr: int, a: nat, b: nat)
    requires Square(curr, pm, sats + gsts) && a < sats + gsts && b < sats + gsts
    ensures Latest(LinkDiff(curr, pm, sats, gsts, thr), a, b, curr[a, b]) ==
            if Visited(sats, gsts, a, b) && Differs(curr[a, b], pm[a, b], thr) then pm[a, b] else curr[a, b]
  {
    LinkDiffExact(curr, pm, sats, gsts, thr);
    LatestOfEntries(LinkDiff(curr, pm, sats, gsts, thr), pm, a, b, curr[a, b]);
  }

  /** The node diff over satellites `0 .. n - 1`: the machine id of every
      satellite whose bounding-box membership changed, `Active` when it is
      now inside and `Stopped` when it left. */
  function NodeDiff(shellId: nat, before: seq<bool>, after: seq<bool>, n: nat): (r: map<MachineId, VmState>)
    requires n <= |before| && n <= |after|
    ensures forall i | 0 <= i < n :: MachineId(shellId, i, "") in r <==> before[i] != after[i]
    ensures forall i | 0 <= i < n && before[i] != after[i] ::
              r[MachineId(shellId, i, "")] == if after[i] then Active else Stopped
    ensures forall m | m in r :: m.group == shellId && m.id < n && m.name == ""
  {
    map i | 0 <= i < n && after[i] != before[i] :: MachineId(shellId, i, "") := if after[i] then Active else Stopped
  }

  /** One more satellite adds its machine id to the node diff exactly when
      its flag changed. */
  lemma NodeDiffStep(shellId: nat, before: seq<bool>, after: seq<bool>, i: nat)
    requires i < |before| && i < |after|
    ensures NodeDiff(shellId, before, after, i + 1) ==
            if before[i] == after[i] then NodeDiff(shellId, before, after, i)
            else NodeDiff(shellId, before, after, i)[MachineId(shellId, i, "") := if after[i] then Active else Stopped]
  {
    var m, m' := NodeDiff(shellId, before, after, i), NodeDiff(shellId, before, after, i + 1);
    var r := if before[i] == after[i] then m else m[MachineId(shellId, i, "") := if after[i] then Active else Stopped];
    assert m'.Keys == r.Keys;
  }
}
