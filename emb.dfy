/** The `Emb` object of utils/emb.py: the fields its methods update while a stream of
    `.all` datagrams is read, and the guard and resampling part of `show`. Every
    state-changing method is proved to move `State()` exactly as the matching
    function of the Accumulator module says, and to keep `Consistent`. */
module Emb {
  import opened Common
  import opened Datagrams
  import opened Accumulator
  import opened Resample

  /** `get_nav` on an empty navigation list reaches `self._logging.warning`, an
      attribute the class never defines, so it raises instead of returning None. */
  datatype NavError = MissingLoggingAttribute

  /** The part of `show` modelled here: the two guards, the slice `idxs[0]:idxs[1]`,
      and the isometric resampling and mask of the slice. */
  function ShowGrid(w: seq<seq<real>>, xRes: Option<real>, yRes: real, zoom: real, start: int, stop: int)
    : (r: Result<seq<seq<Cell>>, ShowError>)
    ensures w == [] ==> r == Err(NoData)
    ensures w != [] && start >= |w| ==> r == Err(StartOutOfRange)
    ensures w != [] && start < |w| && !Rectangular(PySlice(w, start, stop)) ==> r == Err(Ragged)
    ensures r.Ok? ==> w != [] && start < |w| && Rectangular(PySlice(w, start, stop))
    ensures r.Ok? ==> StretchFactor(xRes, yRes, zoom).Ok? && |r.value| == Width(PySlice(w, start, stop))
    ensures r.Ok? && PySlice(w, start, stop) != [] ==> forall c :: 0 <= c < |r.value| ==>
      |r.value[c]| == |PySlice(w, start, stop)| * StretchFactor(xRes, yRes, zoom).value
  {
    if |w| <= 0 then Err(NoData)
    else if start >= |w| then Err(StartOutOfRange)
    else
      var grid := PySlice(w, start, stop);
      if !Rectangular(grid) then Err(Ragged) else Isometric(grid, xRes, yRes, zoom)
  }

  /** With the default `idxs=[0, -1]` the oldest row (the last of the waterfall) is not
      shown: two waterfalls that differ only in their oldest row give the same grid. */
  lemma ShowIgnoresOldestRow(w: seq<seq<real>>, w': seq<seq<real>>, xRes: Option<real>, yRes: real, zoom: real)
    requires |w| >= 1 && |w'| == |w| && w[..|w| - 1] == w'[..|w'| - 1]
    ensures ShowGrid(w, xRes, yRes, zoom, 0, -1) == ShowGrid(w', xRes, yRes, zoom, 0, -1)
  {
    assert PySlice(w, 0, -1) == w[..|w| - 1];
    assert PySlice(w', 0, -1) == w'[..|w'| - 1];
  }

  /** With equal resolutions and zoom 1, `show()` keeps one sample per shown ping: a
      column of the result holds the newest ping first and ends in masked fill. */
  lemma ShowDefaultWindow(w: seq<seq<real>>, res: real)
    requires Rectangular(w) && |w| >= 3 && |w[0]| >= 1 && res != 0.0
    ensures var r := ShowGrid(w, Some(res), res, 1.0, 0, -1);
      && r.Ok? && |r.value| == |w[0]|
      && forall c :: 0 <= c < |w[0]| ==>
           |r.value[c]| == |w| - 1
           && r.value[c][|w| - 2] == Masked
           && (!(-MaskTolerance <= w[0][c] <= MaskTolerance) ==> r.value[c][0] == Data(w[0][c]))
  {
    var grid := PySlice(w, 0, -1);
    assert grid == w[..|w| - 1];
    assert Rectangular(grid);
    assert grid[0] == w[0];
    IsometricEqualResolutions(grid, res);
  }

  class Emb {
    /** The records the reader yields, in file order, and the geodesy calls. */
    const records: seq<Datagram>
    const geo: Geodesy
    /** How many records the reader has yielded. */
    var pos: nat

    var xRes: Option<real>
    var yRes: real
    var beamCount: nat
    var distanceTravelled: real
    var positioningSystem: Option<int>
    var navigation: seq<NavRow>
    var leftExtents: real
    var rightExtents: real
    var minDepth: Extended
    var maxDepth: Extended
    var acrossMeans: seq<Option<real>>
    var origin: Option<LatLon>
    var waterfall: seq<seq<real>>
    var waterfallNav: seq<Option<NavRow>>
    var totalRecord: Option<nat>
    var previous: Option<LatLon>

    /** The fields as one value. */
    function State(): EmbState
      reads this`xRes, this`yRes, this`beamCount, this`distanceTravelled, this`positioningSystem, this`navigation
      reads this`leftExtents, this`rightExtents, this`minDepth, this`maxDepth, this`acrossMeans, this`origin
      reads this`waterfall, this`waterfallNav, this`totalRecord, this`previous
    {
      EmbState(xRes, yRes, beamCount, distanceTravelled, positioningSystem, navigation,
               leftExtents, rightExtents, minDepth, maxDepth, acrossMeans, origin,
               waterfall, waterfallNav, totalRecord, previous)
    }

    ghost predicate Valid()
      reads this
    {
      pos <= |records| && Consistent(State())
    }

    /** `Emb(filename)`: the reader is opened on `records`. */
    constructor (records: seq<Datagram>, geo: Geodesy)
      ensures this.records == records && this.geo == geo && pos == 0
      ensures State() == Initial()
      ensures Valid()
    {
      this.records := records;
      this.geo := geo;
      pos := 0;
      xRes, yRes := Some(1.0), 1.0;
      beamCount := 0;
      distanceTravelled := 0.0;
      positioningSystem := None;
      navigation := [];
      leftExtents, rightExtents := 0.0, 0.0;
      minDepth, maxDepth := PosInf, NegInf;
      acrossMeans := [];
      origin := None;
      waterfall, waterfallNav := [], [];
      totalRecord := None;
      previous := None;
      new;
      InitialConsistent();
    }

    /** `get_nav(enu)`: two columns of the navigation rows. With the row layout of
        `set_nav` these are (heading, latitude), or (longitude, east) when `enu` is set
        and there are at least five rows. */
    function GetNav(enu: bool): (r: Result<(seq<real>, seq<real>), NavError>)
      reads this
      requires Valid()
      ensures r.Err? <==> navigation == []
      ensures r.Ok? ==> |r.value.0| == |navigation| && |r.value.1| == |navigation|
      ensures r.Ok? && enu && |navigation| >= 5 ==> forall i :: 0 <= i < |navigation| ==>
        r.value.0[i] == navigation[i][LongitudeField] && r.value.1[i] == navigation[i][EastField]
      ensures r.Ok? && !(enu && |navigation| >= 5) ==> forall i :: 0 <= i < |navigation| ==>
        r.value.0[i] == navigation[i][HeadingField] && r.value.1[i] == navigation[i][LatitudeField]
    {
      if |navigation| == 0 then Err(MissingLoggingAttribute)
      else
        assert Rectangular(navigation);
        Ok(NavColumns(navigation, enu).value)
    }

    /** The assignments of `set_nav(datagram, counter)`; `time` is the reader's
        current record time. The positioning system and the origin are taken from the
        first fix only; the range from the previous position (the fix itself on the
        first call) is added to the distance; one row is appended, projected about the
        origin; the fix becomes the previous position. No other field changes. */
    method SetNavFields(fix: PositionFix, time: real, counter: int)
      modifies this`positioningSystem, this`origin, this`previous, this`distanceTravelled, this`navigation
      ensures positioningSystem == if old(positioningSystem).None? then Some(fix.descriptor) else old(positioningSystem)
      ensures origin == Some(if old(origin).None? then fix.pos else old(origin).value)
      ensures distanceTravelled ==
        old(distanceTravelled) + RangeBetween(geo, if old(previous).None? then fix.pos else old(previous).value, fix.pos)
      ensures navigation == old(navigation) + [NavRowOf(counter, time, fix, EnuOf(geo, fix.pos, origin.value).0,
                                                         EnuOf(geo, fix.pos, origin.value).1)]
      ensures previous == Some(fix.pos)
    {
      var ps := if positioningSystem.None? then Some(fix.descriptor) else positioningSystem;
      var o := if origin.None? then fix.pos else origin.value;
      var prev := if previous.None? then fix.pos else previous.value;
      var en := EnuOf(geo, fix.pos, o);
      positioningSystem, origin, previous := ps, Some(o), Some(fix.pos);
      distanceTravelled := distanceTravelled + RangeBetween(geo, prev, fix.pos);
      navigation := navigation + [NavRowOf(counter, time, fix, en.0, en.1)];
    }

    /** The assignments of `set_depth_line(datagram, counter, navigation=nav)`: a ping
        of at most one beam changes nothing; otherwise its corrected depths and `nav`
        go in front of the waterfall, its mean beam spacing is appended, and the beam
        count and the depth extents are widened to cover it. */
    method SetDepthLineFields(ping: Ping, counter: int, nav: Option<NavRow>)
      modifies this`acrossMeans, this`beamCount, this`minDepth, this`maxDepth, this`waterfall, this`waterfallNav
      ensures !Accepted(ping) ==>
        && acrossMeans == old(acrossMeans) && beamCount == old(beamCount)
        && minDepth == old(minDepth) && maxDepth == old(maxDepth)
        && waterfall == old(waterfall) && waterfallNav == old(waterfallNav)
      ensures Accepted(ping) ==>
        && acrossMeans == old(acrossMeans) + [MeanSpacing(NonZero(ping.acrossTrack))]
        && beamCount == Max(old(beamCount), |ping.depth|)
        && minDepth == MinE(old(minDepth), MinOf(CorrectedDepth(ping)))
        && maxDepth == MaxE(old(maxDepth), MaxOf(CorrectedDepth(ping)))
        && waterfall == [CorrectedDepth(ping)] + old(waterfall)
        && waterfallNav == [nav] + old(waterfallNav)
    {
      if ping.nBeams > 1 {
        var across := NonZero(ping.acrossTrack);
        acrossMeans := acrossMeans + [MeanSpacing(across)];
        beamCount := Max(beamCount, |ping.depth|);
        var dataDepth := CorrectedDepth(ping);
        minDepth := MinE(minDepth, MinOf(dataDepth));
        maxDepth := MaxE(maxDepth, MaxOf(dataDepth));
        waterfall := [dataDepth] + waterfall;
        waterfallNav := [nav] + waterfallNav;
      }
    }

    /** `set_nav` called on its own: the object moves by one `set_nav` step and stays
        consistent, so `get_nav` may follow. */
    method SetNav(fix: PositionFix, time: real, counter: int)
      requires Valid()
      modifies this`positioningSystem, this`origin, this`previous, this`distanceTravelled, this`navigation
      ensures Valid()
      ensures State() == AfterSetNav(old(State()), fix, time, counter, geo)
    {
      SetNavFields(fix, time, counter);
      ConsistentAfterSetNav(old(State()), fix, time, counter, geo);
    }

    /** `set_depth_line` called on its own: the object moves by one `set_depth_line` step
        and stays consistent. */
    method SetDepthLine(ping: Ping, counter: int, nav: Option<NavRow>)
      requires Valid()
      modifies this`acrossMeans, this`beamCount, this`minDepth, this`maxDepth, this`waterfall, this`waterfallNav
      ensures Valid()
      ensures State() == AfterSetDepthLine(old(State()), ping, nav)
    {
      ghost var s0 := State();
      SetDepthLineFields(ping, counter, nav);
      ConsistentAfterSetDepthLine(s0, ping, nav);
    }

    /** The dispatch in the `read_datagrams` loop body: a position record goes to
        `set_nav`, a depth record to `set_depth_line` with the newest navigation row (or
        None when there is none yet), and any other record is skipped. */
    method Dispatch(d: Datagram, counter: nat)
      modifies this`positioningSystem, this`origin, this`previous, this`distanceTravelled, this`navigation
      modifies this`acrossMeans, this`beamCount, this`minDepth, this`maxDepth, this`waterfall, this`waterfallNav
      ensures State() == AfterRecord(old(State()), d, counter, geo)
    {
      ghost var s0 := State();
      match d {
        case Position(time, fix) =>
          SetNavFields(fix, time, counter);
        case Depth(_, ping) =>
          var nav := LastNav(navigation);
          SetDepthLineFields(ping, counter, nav);
          if Accepted(ping) {
            assert State() == s0.(acrossMeans := acrossMeans, beamCount := beamCount, minDepth := minDepth,
              maxDepth := maxDepth, waterfall := waterfall, waterfallNav := waterfallNav);
          } else {
            assert State() == s0;
          }
        case Other(_) =>
      }
    }

    /** The loop of `read_datagrams`: records are read while there are more and
        `counter <= max_number`, record `i` of them with counter `i`. */
    method ReadRecords(maxNumber: Option<int>) returns (counter: nat)
      requires pos <= |records|
      modifies this`pos, this`positioningSystem, this`origin, this`previous, this`distanceTravelled, this`navigation
      modifies this`acrossMeans, this`beamCount, this`minDepth, this`maxDepth, this`waterfall, this`waterfallNav
      ensures counter == RecordsHandled(|records| - old(pos), maxNumber)
      ensures pos == old(pos) + counter
      ensures State() == AfterRecords(old(State()), records[old(pos)..pos], geo)
    {
      ghost var s0 := State();
      ghost var start := pos;
      var next := pos;
      assert records[start..next] == [];
      counter := 0;
      while next < |records| && (maxNumber.None? || counter <= maxNumber.value)
        invariant start <= next <= |records|
        invariant counter == next - start <= RecordsHandled(|records| - start, maxNumber)
        invariant State() == AfterRecords(s0, records[start..next], geo)
        decreases |records| - next
      {
        ghost var before := State();
        Dispatch(records[next], counter);
        ExtendFold(before, State(), s0, records, start, next, geo);
        next, counter := next + 1, counter + 1;
      }
      pos := next;
    }

    /** The end of `read_datagrams`: `x_res` is the average beam spacing; then
        `distance_travelled / counter` fails when no record was read, and otherwise
        becomes `y_res`, with the counter stored as the record total. */
    method Finish(counter: nat) returns (status: Status)
      modifies this`xRes, this`yRes, this`totalRecord
      ensures xRes == MeanOf(acrossMeans)
      ensures counter == 0 ==> status == Failed(ZeroDivision) && yRes == old(yRes) && totalRecord == old(totalRecord)
      ensures counter > 0 ==> status == Done && yRes == distanceTravelled / counter as real && totalRecord == Some(counter)
    {
      xRes := MeanOf(acrossMeans);
      if counter == 0 {
        return Failed(ZeroDivision);
      }
      yRes := distanceTravelled / counter as real;
      totalRecord := Some(counter);
      status := Done;
    }

    /** `read_datagrams(max_number)`, None standing for the default infinity. Record
        `i` of those handled is read with counter `i`; the call fails with a division
        by zero when no record is handled, after `x_res` has been set. */
    method ReadDatagrams(maxNumber: Option<int>) returns (status: Status)
      requires Valid()
      modifies this
      ensures Valid()
      ensures var n := RecordsHandled(|records| - old(pos), maxNumber);
        && pos == old(pos) + n
        && (status.Failed? <==> n == 0)
        && (status.Failed? ==> status.error == ZeroDivision)
        && State() == Finalise(AfterRecords(old(State()), records[old(pos)..pos], geo), n)
    {
      ghost var s0 := State();
      var counter := ReadRecords(maxNumber);
      ghost var read := State();
      status := Finish(counter);
      assert State() == Finalise(read, counter);
      ConsistentAfterRecords(s0, records[old(pos)..pos], geo);
      FinaliseKeepsConsistent(read, counter);
    }

    /** Lines 182-205 of `show(zoom=zoom, idxs=[start, stop])`: the masked, isometric
        grid that is then shaded. */
    method Show(zoom: real, start: int, stop: int) returns (r: Result<seq<seq<Cell>>, ShowError>)
      ensures r == ShowGrid(waterfall, xRes, yRes, zoom, start, stop)
    {
      if |waterfall| <= 0 {
        return Err(NoData);
      }
      if start >= |waterfall| {
        return Err(StartOutOfRange);
      }
      var npGrid := PySlice(waterfall, start, stop);
      if !Rectangular(npGrid) {
        return Err(Ragged);
      }
      r := StretchIsometric(npGrid, xRes, yRes, zoom);
    }
  }
}
