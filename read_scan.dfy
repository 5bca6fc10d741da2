/** The one-pass `read()` of utils/emb-Copy1.py as a value: what it accumulates in the
    object and in its own locals while it walks the record stream once, and what it
    leaves when the stream is exhausted. */
module ReadScan {
  import opened Common
  import opened Datagrams
  import opened Accumulator

  /** The width of a row `read()` appends: [counter, time, latitude, longitude, east, north]. */
  const ScanWidth := 6

  function ScanRowOf(counter: int, time: real, fix: PositionFix, east: real, north: real): (row: NavRow)
    ensures |row| == ScanWidth
    ensures row[2] == fix.pos.lat && row[3] == fix.pos.lon && row[4] == east && row[5] == north
  {
    [counter as real, time, fix.pos.lat, fix.pos.lon, east, north]
  }

  /** What `read()` has accumulated: the object fields it changes while looping (the
      first seven) and its locals `prevLat`/`prevLong`, `p_counter`, `acrossMeans`,
      `leftExtents`, `rightExtents` and `waterfall`. */
  datatype Scan = Scan(
    positioningSystem: Option<int>,
    origin: Option<LatLon>,
    distanceTravelled: real,
    navigation: seq<NavRow>,
    beamCount: nat,
    minDepth: Extended,
    maxDepth: Extended,
    prev: Option<LatLon>,
    pCounter: nat,
    acrossMeans: seq<Option<real>>,
    leftExtents: seq<real>,
    rightExtents: seq<real>,
    waterfall: seq<seq<real>>)

  /** The scan at the top of `read()`: the object's fields as they are, the locals empty. */
  function ScanStart(e: EmbState): (sc: Scan)
    ensures sc.prev == None && sc.pCounter == 0 && sc.waterfall == []
    ensures sc.acrossMeans == [] && sc.leftExtents == [] && sc.rightExtents == []
    ensures sc.navigation == e.navigation && sc.origin == e.origin
  {
    Scan(e.positioningSystem, e.origin, e.distanceTravelled, e.navigation, e.beamCount,
         e.minDepth, e.maxDepth, None, 0, [], [], [], [])
  }

  /** The descriptor `read()` tracks once it has seen `fix`: the one already adopted, or
      the fix's own. */
  function Adopted(ps: Option<int>, fix: PositionFix): int
  {
    if ps.Some? then ps.value else fix.descriptor
  }

  /** A position record: the first descriptor seen is adopted. A fix with that
      descriptor is counted; the first one counted sets the previous position and,
      when unset, the origin; its range from the previous position is added and a
      six-field row is appended. A fix with another descriptor changes nothing else. */
  function ScanPosition(s: Scan, fix: PositionFix, time: real, counter: nat, geo: Geodesy): Scan
  {
    var ps := Some(Adopted(s.positioningSystem, fix));
    if ps != Some(fix.descriptor) then s.(positioningSystem := ps)
    else
      var prev := if s.prev.None? then fix.pos else s.prev.value;
      var origin := if s.prev.None? && s.origin.None? then Some(fix.pos) else s.origin;
      var o := if origin.Some? then origin.value else fix.pos;
      var en := EnuOf(geo, fix.pos, o);
      s.(positioningSystem := ps,
         pCounter := s.pCounter + 1,
         origin := origin,
         distanceTravelled := s.distanceTravelled + RangeBetween(geo, prev, fix.pos),
         navigation := s.navigation + [ScanRowOf(counter, time, fix, en.0, en.1)],
         prev := Some(fix.pos))
  }

  /** A depth record: a ping of at most one beam changes nothing. Otherwise, when some
      across-track distance is not zero, the mean spacing, the smallest and the largest
      of those distances are appended and the beam count is widened; in every case the
      depth extents are widened and the corrected row goes in front of the waterfall. */
  function ScanDepth(s: Scan, p: Ping): Scan
  {
    if !Accepted(p) then s
    else
      var across := NonZero(p.acrossTrack);
      var d := CorrectedDepth(p);
      var s' := if |across| > 0 then
          s.(acrossMeans := s.acrossMeans + [MeanSpacing(across)],
             leftExtents := s.leftExtents + [MinOf(across).v],
             rightExtents := s.rightExtents + [MaxOf(across).v],
             beamCount := Max(s.beamCount, |p.depth|))
        else s;
      s'.(minDepth := MinE(s.minDepth, MinOf(d)),
          maxDepth := MaxE(s.maxDepth, MaxOf(d)),
          waterfall := [d] + s.waterfall)
  }

  /** One pass of the `read()` loop, for the record read while the counter is `counter`. */
  function ScanStep(s: Scan, d: Datagram, counter: nat, geo: Geodesy): Scan
  {
    match d
    case Position(time, fix) => ScanPosition(s, fix, time, counter, geo)
    case Depth(_, p) => ScanDepth(s, p)
    case Other(_) => s
  }

  /** The loop over `recs`, record `i` read with counter `i`. */
  function ScanRecords(s: Scan, recs: seq<Datagram>, geo: Geodesy): Scan
    decreases |recs|
  {
    if recs == [] then s
    else ScanStep(ScanRecords(s, recs[..|recs| - 1], geo), recs[|recs| - 1], |recs| - 1, geo)
  }

  lemma ScanRecordsSnoc(s: Scan, recs: seq<Datagram>, d: Datagram, geo: Geodesy)
    ensures ScanRecords(s, recs + [d], geo) == ScanStep(ScanRecords(s, recs, geo), d, |recs|, geo)
  {
    assert (recs + [d])[..|recs|] == recs;
  }

  /** One more pass of the loop extends the scan over `recs[i..j]` to `recs[i..j + 1]`. */
  lemma ExtendScan(before: Scan, after: Scan, s: Scan, recs: seq<Datagram>, i: nat, j: nat, geo: Geodesy)
    requires i <= j < |recs|
    requires before == ScanRecords(s, recs[i..j], geo)
    requires after == ScanStep(before, recs[j], j - i, geo)
    ensures after == ScanRecords(s, recs[i..j + 1], geo)
  {
    assert recs[i..j + 1] == recs[i..j] + [recs[j]];
    ScanRecordsSnoc(s, recs[i..j], recs[j], geo);
  }

  /** The statements after the loop, given the object's state `e` when `read()` was
      called, the scan and the number of records read. `x_res` is the mean spacing;
      `distance / counter` fails when nothing was read; `np.min` of the extents fails
      when no ping had a non-zero across-track distance; otherwise the extents and the
      record total are stored and the waterfall is returned. */
  function FinishRead(e: EmbState, sc: Scan, counter: nat): (r: (EmbState, Result<seq<seq<real>>, ReadError>))
    ensures r.0.xRes == MeanOf(sc.acrossMeans)
    ensures r.0.navigation == sc.navigation && r.0.origin == sc.origin
    ensures r.0.waterfall == e.waterfall && r.0.previous == e.previous
    ensures counter == 0 <==> r.1 == Err(ZeroDivision)
    ensures counter > 0 ==> r.0.yRes * counter as real == sc.distanceTravelled
    ensures counter > 0 && sc.leftExtents == [] ==> r.1 == Err(EmptyExtents)
    ensures r.1.Ok? <==> counter > 0 && sc.leftExtents != [] && sc.rightExtents != []
    ensures r.1.Ok? ==>
      && r.1.value == sc.waterfall && r.0.totalRecord == Some(counter)
      && Finite(r.0.leftExtents) == MinOf(sc.leftExtents) && Finite(r.0.rightExtents) == MaxOf(sc.rightExtents)
  {
    var e1 := e.(positioningSystem := sc.positioningSystem, origin := sc.origin,
                 distanceTravelled := sc.distanceTravelled, navigation := sc.navigation,
                 beamCount := sc.beamCount, minDepth := sc.minDepth, maxDepth := sc.maxDepth,
                 xRes := MeanOf(sc.acrossMeans));
    if counter == 0 then (e1, Err(ZeroDivision))
    else
      var e2 := e1.(yRes := sc.distanceTravelled / counter as real);
      if sc.leftExtents == [] || sc.rightExtents == [] then (e2, Err(EmptyExtents))
      else
        (e2.(leftExtents := MinOf(sc.leftExtents).v, rightExtents := MaxOf(sc.rightExtents).v,
             totalRecord := Some(counter)),
         Ok(sc.waterfall))
  }

  // ---------------------------------------------------------------------------
  // Invariants of the scan

  /** The left and right extents are appended together; every row `read()` appends
      has six fields; the previous position is only set once an origin exists; a
      counted fix always has an adopted descriptor. */
  predicate ScanConsistent(s: Scan)
  {
    && |s.leftExtents| == |s.rightExtents| == |s.acrossMeans|
    && (s.prev.Some? ==> s.origin.Some?)
    && (s.pCounter > 0 ==> s.positioningSystem.Some?)
  }

  lemma ScanStartConsistent(e: EmbState)
    ensures ScanConsistent(ScanStart(e))
  {
  }

  lemma {:induction false} ScanRecordsConsistent(s: Scan, recs: seq<Datagram>, geo: Geodesy)
    requires ScanConsistent(s)
    ensures ScanConsistent(ScanRecords(s, recs, geo))
    decreases |recs|
  {
    if recs != [] {
      ScanRecordsConsistent(s, recs[..|recs| - 1], geo);
    }
  }

  /** Only fixes with the adopted descriptor are counted, and each of them appends one
      row; a fix with another descriptor leaves the navigation, the distance and the
      previous position as they were. */
  lemma ScanPositionFilter(s: Scan, fix: PositionFix, time: real, counter: nat, geo: Geodesy)
    ensures var r := ScanPosition(s, fix, time, counter, geo);
      && r.positioningSystem == Some(Adopted(s.positioningSystem, fix))
      && (fix.descriptor == Adopted(s.positioningSystem, fix) ==>
            r.pCounter == s.pCounter + 1 && |r.navigation| == |s.navigation| + 1 && r.prev == Some(fix.pos))
      && (fix.descriptor != Adopted(s.positioningSystem, fix) ==>
            r == s.(positioningSystem := r.positioningSystem))
  {
  }

  /** The previous position and the origin are set only by the first counted fix, and
      the origin only when it was unset. */
  lemma ScanOriginOnce(s: Scan, fix: PositionFix, time: real, counter: nat, geo: Geodesy)
    ensures var r := ScanPosition(s, fix, time, counter, geo);
      && (s.origin.Some? ==> r.origin == s.origin)
      && (s.prev.Some? ==> r.origin == s.origin)
      && (s.prev.None? && s.origin.None? && fix.descriptor == Adopted(s.positioningSystem, fix) ==>
            r.origin == Some(fix.pos))
  {
  }

  /** The row a counted fix appends, field by field. */
  lemma ScanPositionRow(s: Scan, fix: PositionFix, time: real, counter: nat, geo: Geodesy)
    requires ScanConsistent(s)
    requires fix.descriptor == Adopted(s.positioningSystem, fix)
    ensures var r := ScanPosition(s, fix, time, counter, geo);
      var row := r.navigation[|s.navigation|];
      && r.navigation[..|s.navigation|] == s.navigation
      && row == [counter as real, time, fix.pos.lat, fix.pos.lon, row[4], row[5]]
      && (row[4], row[5]) == EnuOf(geo, fix.pos, r.origin.value)
      && r.distanceTravelled ==
           s.distanceTravelled + RangeBetween(geo, if s.prev.Some? then s.prev.value else fix.pos, fix.pos)
  {
    var r := ScanPosition(s, fix, time, counter, geo);
    assert r.navigation == s.navigation + [r.navigation[|s.navigation|]];
  }

  /** The spacing, the extents and the beam count move only for a ping with some
      non-zero across-track distance; the depth extents and the waterfall move for
      every ping of more than one beam. */
  lemma ScanDepthGuard(s: Scan, p: Ping)
    ensures var r := ScanDepth(s, p);
      && (!Accepted(p) ==> r == s)
      && (Accepted(p) ==>
            && r.waterfall == [CorrectedDepth(p)] + s.waterfall
            && r.minDepth == MinE(s.minDepth, MinOf(CorrectedDepth(p)))
            && r.maxDepth == MaxE(s.maxDepth, MaxOf(CorrectedDepth(p))))
      && (Accepted(p) && NonZero(p.acrossTrack) == [] ==>
            r.acrossMeans == s.acrossMeans && r.leftExtents == s.leftExtents
            && r.rightExtents == s.rightExtents && r.beamCount == s.beamCount)
      && (Accepted(p) && NonZero(p.acrossTrack) != [] ==>
            r.acrossMeans == s.acrossMeans + [MeanSpacing(NonZero(p.acrossTrack))]
            && r.leftExtents == s.leftExtents + [MinOf(NonZero(p.acrossTrack)).v]
            && r.rightExtents == s.rightExtents + [MaxOf(NonZero(p.acrossTrack)).v]
            && r.beamCount == Max(s.beamCount, |p.depth|))
      && r.navigation == s.navigation && r.distanceTravelled == s.distanceTravelled
  {
  }

  lemma ScanWaterfallAfterStep(s: Scan, d: Datagram, counter: nat, geo: Geodesy)
    ensures ScanStep(s, d, counter, geo).waterfall ==
      (if d.Depth? && Accepted(d.ping) then [CorrectedDepth(d.ping)] else []) + s.waterfall
  {
  }

  /** The returned waterfall holds the accepted pings newest first. */
  lemma {:induction false} ScanWaterfallNewestFirst(s: Scan, recs: seq<Datagram>, geo: Geodesy)
    ensures ScanRecords(s, recs, geo).waterfall == Reverse(AcceptedRows(recs)) + s.waterfall
    decreases |recs|
  {
    if recs != [] {
      var init, d := recs[..|recs| - 1], recs[|recs| - 1];
      assert recs == init + [d];
      ScanWaterfallNewestFirst(s, init, geo);
      ScanWaterfallAfterStep(ScanRecords(s, init, geo), d, |recs| - 1, geo);
      AcceptedRowsSnoc(init, d);
      if d.Depth? && Accepted(d.ping) {
        assert AcceptedRows(recs) == AcceptedRows(init) + [CorrectedDepth(d.ping)];
        ReverseAppend(AcceptedRows(init), CorrectedDepth(d.ping));
      } else {
        assert AcceptedRows(recs) == AcceptedRows(init) + [];
        assert AcceptedRows(init) + [] == AcceptedRows(init);
      }
    }
  }

  /** Every row appended while scanning has six fields, and there is one per counted fix. */
  lemma {:induction false} ScanRowsSixWide(s: Scan, recs: seq<Datagram>, geo: Geodesy)
    ensures var r := ScanRecords(s, recs, geo);
      && s.navigation <= r.navigation
      && |r.navigation| - |s.navigation| == r.pCounter - s.pCounter
      && forall i :: |s.navigation| <= i < |r.navigation| ==> |r.navigation[i]| == ScanWidth
    decreases |recs|
  {
    if recs != [] {
      ScanRowsSixWide(s, recs[..|recs| - 1], geo);
    }
  }

  /** One pass only extends the extents lists, and the extents of an accepted ping
      cover its non-zero across-track distances. */
  lemma ScanStepExtents(s: Scan, d: Datagram, counter: nat, geo: Geodesy)
    ensures var r := ScanStep(s, d, counter, geo);
      && s.leftExtents <= r.leftExtents && s.rightExtents <= r.rightExtents
      && (d.Depth? && Accepted(d.ping) ==> forall x :: x in NonZero(d.ping.acrossTrack) ==>
            Le(MinOf(r.leftExtents), Finite(x)) && Le(Finite(x), MaxOf(r.rightExtents)))
  {
    var r := ScanStep(s, d, counter, geo);
    if d.Depth? && Accepted(d.ping) {
      var across := NonZero(d.ping.acrossTrack);
      if across != [] {
        assert r.leftExtents == s.leftExtents + [MinOf(across).v];
        assert r.rightExtents == s.rightExtents + [MaxOf(across).v];
        assert r.leftExtents[|s.leftExtents|] == MinOf(across).v;
        assert r.rightExtents[|s.rightExtents|] == MaxOf(across).v;
        forall x | x in across
          ensures Le(MinOf(r.leftExtents), Finite(x)) && Le(Finite(x), MaxOf(r.rightExtents))
        {
          var i :| 0 <= i < |across| && across[i] == x;
          LeTransitive(MinOf(r.leftExtents), MinOf(across), Finite(x));
          LeTransitive(Finite(x), MaxOf(across), MaxOf(r.rightExtents));
        }
      }
    }
  }

  /** Every non-zero across-track distance of a scanned ping of more than one beam lies
      between the left and the right extents `read()` stores. */
  lemma {:induction false} ScanExtentsCover(s: Scan, recs: seq<Datagram>, geo: Geodesy)
    ensures var r := ScanRecords(s, recs, geo);
      && s.leftExtents <= r.leftExtents && s.rightExtents <= r.rightExtents
      && forall k, x ::
           (0 <= k < |recs| && recs[k].Depth? && Accepted(recs[k].ping) && x in NonZero(recs[k].ping.acrossTrack)) ==>
           Le(MinOf(r.leftExtents), Finite(x)) && Le(Finite(x), MaxOf(r.rightExtents))
    decreases |recs|
  {
    if recs != [] {
      var init, d := recs[..|recs| - 1], recs[|recs| - 1];
      var before, r := ScanRecords(s, init, geo), ScanRecords(s, recs, geo);
      ScanExtentsCover(s, init, geo);
      ScanStepExtents(before, d, |recs| - 1, geo);
      MinOfPrefix(before.leftExtents, r.leftExtents);
      MaxOfPrefix(before.rightExtents, r.rightExtents);
      forall k, x | 0 <= k < |recs| - 1 && recs[k].Depth? && Accepted(recs[k].ping) && x in NonZero(recs[k].ping.acrossTrack)
        ensures Le(MinOf(r.leftExtents), Finite(x)) && Le(Finite(x), MaxOf(r.rightExtents))
      {
        assert recs[k] == init[k];
        LeTransitive(MinOf(r.leftExtents), MinOf(before.leftExtents), Finite(x));
        LeTransitive(Finite(x), MaxOf(before.rightExtents), MaxOf(r.rightExtents));
      }
    }
  }

  /** The minimum of a longer list is at most the minimum of its prefix. */
  lemma MinOfPrefix(a: seq<real>, b: seq<real>)
    requires a <= b
    ensures Le(MinOf(b), MinOf(a))
  {
    if a != [] {
      var i :| 0 <= i < |a| && a[i] == MinOf(a).v;
      assert b[i] == a[i];
    }
  }

  /** The maximum of a longer list is at least the maximum of its prefix. */
  lemma MaxOfPrefix(a: seq<real>, b: seq<real>)
    requires a <= b
    ensures Le(MaxOf(a), MaxOf(b))
  {
    if a != [] {
      var i :| 0 <= i < |a| && a[i] == MaxOf(a).v;
      assert b[i] == a[i];
    }
  }

  /** On six-field rows `get_nav()` yields latitudes and longitudes, and
      `get_nav(enu=True)` (with at least five rows) eastings and northings. */
  lemma NavColumnsOfScanRows(nav: seq<NavRow>, enu: bool)
    requires nav != [] && forall i :: 0 <= i < |nav| ==> |nav[i]| == ScanWidth
    ensures var r := NavColumns(nav, enu);
      && r.Some?
      && (enu && |nav| >= 5 ==> forall i :: 0 <= i < |nav| ==> r.value.0[i] == nav[i][4] && r.value.1[i] == nav[i][5])
      && (!(enu && |nav| >= 5) ==> forall i :: 0 <= i < |nav| ==> r.value.0[i] == nav[i][2] && r.value.1[i] == nav[i][3])
  {
  }

  // ---------------------------------------------------------------------------
  // Finding: the range call names a module that is not bound

  /** As written, line 165 of utils/emb-Copy1.py calls `geodetic.calculate...`, but the
      module is imported as `utils.geodetic`, so the name `geodetic` is unbound and
      `read()` raises a NameError at the first position record it counts. This is the
      index of that record, starting from the adopted descriptor `ps` (the first fix
      at all when none is adopted yet, otherwise the first with that descriptor); None
      when the stream has no such record and is read to its end. */
  function NameErrorAt(ps: Option<int>, recs: seq<Datagram>): (r: Option<nat>)
    ensures r.Some? ==>
      && r.value < |recs| && recs[r.value].Position?
      && recs[r.value].fix.descriptor == Adopted(ps, recs[r.value].fix)
    ensures r.Some? ==> forall i :: 0 <= i < r.value && recs[i].Position? ==>
      ps.Some? && recs[i].fix.descriptor != ps.value
    ensures r.None? ==> forall i :: 0 <= i < |recs| && recs[i].Position? ==>
      ps.Some? && recs[i].fix.descriptor != ps.value
    decreases |recs|
  {
    if recs == [] then None
    else if recs[0].Position? && recs[0].fix.descriptor == Adopted(ps, recs[0].fix) then Some(0)
    else
      var ps' := if recs[0].Position? then Some(Adopted(ps, recs[0].fix)) else ps;
      assert ps.Some? ==> ps' == ps;
      var rest := NameErrorAt(ps', recs[1..]);
      assert forall i :: 1 <= i < |recs| ==> recs[i] == recs[1..][i - 1];
      if rest.Some? then Some(rest.value + 1) else None
  }

  /** On an object that has adopted no descriptor yet, the as-written `read()` fails at
      the very first position record of the stream. */
  lemma ReadAsWrittenFailsAtFirstFix(e: EmbState, recs: seq<Datagram>, k: nat)
    requires e.positioningSystem.None?
    requires k < |recs| && recs[k].Position? && forall i :: 0 <= i < k ==> !recs[i].Position?
    ensures NameErrorAt(e.positioningSystem, recs) == Some(k)
  {
    var r := NameErrorAt(e.positioningSystem, recs);
    assert r.Some?;
  }

  /** With the range collaborator bound, the first fix is counted and contributes a
      zero-length step (from the point to itself) and the first row. */
  lemma ScanCountsFirstFix(e: EmbState, fix: PositionFix, time: real, geo: Geodesy)
    requires e.positioningSystem.None?
    ensures var r := ScanRecords(ScanStart(e), [Position(time, fix)], geo);
      && r.pCounter == 1 && r.prev == Some(fix.pos) && |r.navigation| == |e.navigation| + 1
      && r.distanceTravelled == e.distanceTravelled + RangeBetween(geo, fix.pos, fix.pos)
  {
    var recs := [Position(time, fix)];
    assert recs[..0] == [];
  }
}
