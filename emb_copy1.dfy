/** The superseded `Emb` of utils/emb-Copy1.py. It keeps the same fields as utils/emb.py
    and the same `set_nav` and `set_depth_line`, but its `read_datagrams` indexes the
    navigation list without a guard, its `get_nav` answers None on an empty list, its
    `show` has no start-index guard, and it adds the one-pass `read()` and
    `waterfall_img`. */
module EmbCopy1 {
  import opened Common
  import opened Datagrams
  import opened Accumulator
  import opened Resample
  import opened ReadScan
  import EmbPy = Emb

  // ---------------------------------------------------------------------------
  // read_datagrams without the navigation guard

  /** Where the loop of `read_datagrams` stops with an IndexError: the first depth
      record met while `_navigation` is still empty (`self._navigation[-1]`). None when
      the loop over `recs` never meets one. */
  function NavIndexErrorAt(s: EmbState, recs: seq<Datagram>, geo: Geodesy): (r: Option<nat>)
    ensures r.Some? ==>
      && r.value < |recs| && recs[r.value].Depth?
      && AfterRecords(s, recs[..r.value], geo).navigation == []
    decreases |recs|
  {
    if recs == [] then None
    else
      var init := recs[..|recs| - 1];
      var e := NavIndexErrorAt(s, init, geo);
      if e.Some? then
        assert recs[..e.value] == init[..e.value];
        e
      else if recs[|recs| - 1].Depth? && AfterRecords(s, init, geo).navigation == [] then Some(|recs| - 1)
      else None
  }

  lemma NavIndexErrorSnoc(s: EmbState, recs: seq<Datagram>, d: Datagram, geo: Geodesy)
    ensures NavIndexErrorAt(s, recs + [d], geo) ==
      if NavIndexErrorAt(s, recs, geo).Some? then NavIndexErrorAt(s, recs, geo)
      else if d.Depth? && AfterRecords(s, recs, geo).navigation == [] then Some(|recs|)
      else None
  {
    assert (recs + [d])[..|recs|] == recs;
  }

  /** Once the loop has failed on a prefix, it has failed on the whole stream at the
      same record. */
  lemma {:induction false} NavIndexErrorPrefix(s: EmbState, recs: seq<Datagram>, j: nat, geo: Geodesy)
    requires j <= |recs| && NavIndexErrorAt(s, recs[..j], geo).Some?
    ensures NavIndexErrorAt(s, recs, geo) == NavIndexErrorAt(s, recs[..j], geo)
    decreases |recs| - j
  {
    if j < |recs| {
      NavIndexErrorSnoc(s, recs[..j], recs[j], geo);
      assert recs[..j + 1] == recs[..j] + [recs[j]];
      NavIndexErrorPrefix(s, recs, j + 1, geo);
    } else {
      assert recs[..j] == recs;
    }
  }

  lemma {:induction false} CountPositionsZero(recs: seq<Datagram>)
    ensures CountPositions(recs) == 0 <==> forall j :: 0 <= j < |recs| ==> !recs[j].Position?
    decreases |recs|
  {
    if recs != [] {
      var init := recs[..|recs| - 1];
      CountPositionsZero(init);
      assert forall j :: 0 <= j < |init| ==> init[j] == recs[j];
    }
  }

  /** The unguarded loop fails exactly when the object has no navigation yet and some
      depth record of the stream comes before every position record. */
  lemma {:induction false} NavIndexErrorIffEarlyDepth(s: EmbState, recs: seq<Datagram>, geo: Geodesy)
    ensures NavIndexErrorAt(s, recs, geo).Some? <==>
      s.navigation == [] &&
      exists k :: 0 <= k < |recs| && recs[k].Depth? && forall j :: 0 <= j < k ==> !recs[j].Position?
    decreases |recs|
  {
    if recs != [] {
      var init, d := recs[..|recs| - 1], recs[|recs| - 1];
      assert recs == init + [d];
      NavIndexErrorIffEarlyDepth(s, init, geo);
      NavIndexErrorSnoc(s, init, d, geo);
      NavigationAppendOnly(s, init, geo);
      CountPositionsZero(init);
      assert forall j :: 0 <= j < |init| ==> init[j] == recs[j];
      if NavIndexErrorAt(s, recs, geo).Some? && NavIndexErrorAt(s, init, geo).None? {
        assert recs[|recs| - 1].Depth?;
      }
      if NavIndexErrorAt(s, init, geo).None? && s.navigation == [] {
        if exists k :: 0 <= k < |recs| && recs[k].Depth? && forall j :: 0 <= j < k ==> !recs[j].Position? {
          var k :| 0 <= k < |recs| && recs[k].Depth? && forall j :: 0 <= j < k ==> !recs[j].Position?;
          assert k == |recs| - 1;
        }
      }
    }
  }

  /** With a position record first, the unguarded loop never fails. */
  lemma PositionFirstNeverFails(s: EmbState, recs: seq<Datagram>, geo: Geodesy)
    requires recs != [] && recs[0].Position?
    ensures NavIndexErrorAt(s, recs, geo) == None
  {
    NavIndexErrorIffEarlyDepth(s, recs, geo);
  }

  // ---------------------------------------------------------------------------
  // The invariant this variant keeps

  /** Weaker than `Consistent`: `read()` widens the depth extents and the beam count
      for pings it does not store in `_waterfall`, appends six-field rows, and leaves
      the previous position unset. What remains: the waterfall lists move in
      lockstep; the beam count and depth extents cover every stored row; an origin
      and a positioning system exist once a row exists; rows have six or seven fields. */
  predicate CopyConsistent(s: EmbState)
  {
    && |s.waterfallNav| == |s.waterfall|
    && MaxWidth(s.waterfall) <= s.beamCount
    && (forall i, j :: 0 <= i < |s.waterfall| && 0 <= j < |s.waterfall[i]| ==>
          Le(s.minDepth, Finite(s.waterfall[i][j])) && Le(Finite(s.waterfall[i][j]), s.maxDepth))
    && (s.navigation != [] ==> s.origin.Some? && s.positioningSystem.Some?)
    && forall i :: 0 <= i < |s.navigation| ==> |s.navigation[i]| == NavWidth || |s.navigation[i]| == ScanWidth
  }

  lemma ConsistentIsCopyConsistent(s: EmbState)
    requires Consistent(s)
    ensures CopyConsistent(s)
  {
    DepthsWithinExtents(s);
  }

  lemma CopyConsistentAfterRecord(s: EmbState, d: Datagram, counter: nat, geo: Geodesy)
    requires CopyConsistent(s)
    ensures CopyConsistent(AfterRecord(s, d, counter, geo))
  {
    match d
    case Position(time, fix) =>
      CopyConsistentAfterSetNav(s, fix, time, counter, geo);
    case Depth(_, p) =>
      if Accepted(p) {
        CopyConsistentAfterPing(s, p, LastNav(s.navigation));
      }
    case Other(_) =>
  }

  /** `set_nav` keeps the invariant: a seven-field row is appended and the origin and
      the positioning system are set. */
  lemma CopyConsistentAfterSetNav(s: EmbState, fix: PositionFix, time: real, counter: int, geo: Geodesy)
    requires CopyConsistent(s)
    ensures CopyConsistent(AfterSetNav(s, fix, time, counter, geo))
  {
    var r := AfterSetNav(s, fix, time, counter, geo);
    SetNavRow(s, fix, time, counter, geo);
    assert forall i :: 0 <= i < |s.navigation| ==> r.navigation[i] == s.navigation[i];
  }

  /** An accepted ping keeps the invariant, whatever navigation row goes with it: its
      row goes in front, the beam count and the depth extents widen to cover it. */
  lemma CopyConsistentAfterPing(s: EmbState, p: Ping, nav: Option<NavRow>)
    requires CopyConsistent(s) && Accepted(p)
    ensures CopyConsistent(AfterSetDepthLine(s, p, nav))
  {
    var r := AfterSetDepthLine(s, p, nav);
    var row := CorrectedDepth(p);
    SetDepthLineEffect(s, p, nav);
    assert r.waterfall == [row] + s.waterfall;
    assert MaxWidth(r.waterfall) == Max(|row|, MaxWidth(s.waterfall)) by {
      assert r.waterfall[1..] == s.waterfall;
    }
    forall i, j | 0 <= i < |r.waterfall| && 0 <= j < |r.waterfall[i]|
      ensures Le(r.minDepth, Finite(r.waterfall[i][j])) && Le(Finite(r.waterfall[i][j]), r.maxDepth)
    {
      if i == 0 {
        LeTransitive(r.minDepth, MinOf(row), Finite(row[j]));
        LeTransitive(Finite(row[j]), MaxOf(row), r.maxDepth);
      } else {
        assert r.waterfall[i] == s.waterfall[i - 1];
        LeTransitive(r.minDepth, s.minDepth, Finite(r.waterfall[i][j]));
        LeTransitive(Finite(r.waterfall[i][j]), s.maxDepth, r.maxDepth);
      }
    }
  }

  lemma {:induction false} CopyConsistentAfterRecords(s: EmbState, recs: seq<Datagram>, geo: Geodesy)
    requires CopyConsistent(s)
    ensures CopyConsistent(AfterRecords(s, recs, geo))
    decreases |recs|
  {
    if recs != [] {
      CopyConsistentAfterRecords(s, recs[..|recs| - 1], geo);
      CopyConsistentAfterRecord(AfterRecords(s, recs[..|recs| - 1], geo), recs[|recs| - 1], |recs| - 1, geo);
    }
  }

  lemma CopyConsistentFinalise(s: EmbState, counter: nat)
    requires CopyConsistent(s)
    ensures CopyConsistent(Finalise(s, counter))
  {
  }

  /** The state and result after the loop of `read()`, field by field. */
  lemma FinishReadFields(e: EmbState, sc: Scan, counter: nat, s: EmbState, r: Result<seq<seq<real>>, ReadError>)
    requires
      && (s.positioningSystem == sc.positioningSystem && s.origin == sc.origin)
      && (s.distanceTravelled == sc.distanceTravelled && s.navigation == sc.navigation)
      && (s.beamCount == sc.beamCount && s.minDepth == sc.minDepth && s.maxDepth == sc.maxDepth)
      && (s.acrossMeans == e.acrossMeans && s.waterfall == e.waterfall)
      && (s.waterfallNav == e.waterfallNav && s.previous == e.previous)
      && (s.xRes == MeanOf(sc.acrossMeans))
      && (counter == 0 ==> r == Err(ZeroDivision) && s.yRes == e.yRes)
      && (counter > 0 ==> s.yRes == sc.distanceTravelled / counter as real)
      && (counter > 0 && (sc.leftExtents == [] || sc.rightExtents == []) ==> r == Err(EmptyExtents))
      && (r.Ok? <==> counter > 0 && sc.leftExtents != [] && sc.rightExtents != [])
      && (r.Ok? ==> r.value == sc.waterfall && s.totalRecord == Some(counter))
      && (r.Ok? ==> s.leftExtents == MinOf(sc.leftExtents).v && s.rightExtents == MaxOf(sc.rightExtents).v)
      && (!r.Ok? ==> s.leftExtents == e.leftExtents && s.rightExtents == e.rightExtents)
      && (!r.Ok? ==> s.totalRecord == e.totalRecord)
    ensures (s, r) == FinishRead(e, sc, counter)
  {
  }

  /** `read_datagrams` keeps the invariant, whether it fails at record `stop` of the
      window or runs to its end. */
  lemma ReadKeepsCopyConsistent(s: EmbState, w: seq<Datagram>, stop: Option<nat>, after: EmbState, geo: Geodesy)
    requires CopyConsistent(s)
    requires stop.Some? ==> stop.value <= |w| && after == AfterRecords(s, w[..stop.value], geo)
    requires stop.None? ==> after == Finalise(AfterRecords(s, w, geo), |w|)
    ensures CopyConsistent(after)
  {
    if stop.Some? {
      CopyConsistentAfterRecords(s, w[..stop.value], geo);
    } else {
      CopyConsistentAfterRecords(s, w, geo);
      CopyConsistentFinalise(AfterRecords(s, w, geo), |w|);
    }
  }

  /** The scan only widens the depth extents and the beam count, only appends
      six-field rows, and has an origin and a positioning system once a row exists. */
  predicate ScanWidens(e: EmbState, sc: Scan)
  {
    && Le(sc.minDepth, e.minDepth) && Le(e.maxDepth, sc.maxDepth) && e.beamCount <= sc.beamCount
    && e.navigation <= sc.navigation
    && (forall i :: |e.navigation| <= i < |sc.navigation| ==> |sc.navigation[i]| == ScanWidth)
    && (sc.navigation != [] ==> sc.origin.Some? && sc.positioningSystem.Some?)
    && (sc.prev.Some? ==> sc.origin.Some?)
  }

  lemma {:induction false} ScanRecordsWidens(e: EmbState, recs: seq<Datagram>, geo: Geodesy)
    requires CopyConsistent(e)
    ensures ScanWidens(e, ScanRecords(ScanStart(e), recs, geo))
    decreases |recs|
  {
    if recs != [] {
      var init, d := recs[..|recs| - 1], recs[|recs| - 1];
      var before := ScanRecords(ScanStart(e), init, geo);
      var r := ScanStep(before, d, |recs| - 1, geo);
      ScanRecordsWidens(e, init, geo);
      match d
      case Position(time, fix) =>
        assert forall i :: 0 <= i < |before.navigation| ==> r.navigation[i] == before.navigation[i];
      case Depth(_, p) =>
        if Accepted(p) {
          LeTransitive(r.minDepth, before.minDepth, e.minDepth);
          LeTransitive(e.maxDepth, before.maxDepth, r.maxDepth);
        }
      case Other(_) =>
    }
  }

  /** `read()` keeps the invariant, whether it ends normally or with an error. */
  lemma CopyConsistentAfterRead(e: EmbState, recs: seq<Datagram>, geo: Geodesy)
    requires CopyConsistent(e)
    ensures CopyConsistent(FinishRead(e, ScanRecords(ScanStart(e), recs, geo), |recs|).0)
  {
    var sc := ScanRecords(ScanStart(e), recs, geo);
    var r := FinishRead(e, sc, |recs|).0;
    ScanRecordsWidens(e, recs, geo);
    assert forall i :: 0 <= i < |e.navigation| ==> r.navigation[i] == e.navigation[i];
    forall i, j | 0 <= i < |r.waterfall| && 0 <= j < |r.waterfall[i]|
      ensures Le(r.minDepth, Finite(r.waterfall[i][j])) && Le(Finite(r.waterfall[i][j]), r.maxDepth)
    {
      LeTransitive(r.minDepth, e.minDepth, Finite(r.waterfall[i][j]));
      LeTransitive(Finite(r.waterfall[i][j]), e.maxDepth, r.maxDepth);
    }
  }

  // ---------------------------------------------------------------------------
  // show and waterfall_img

  /** The part of this `show` modelled here: only the empty-waterfall guard, then the
      slice `idxs[0]:idxs[1]`, stretched and masked. */
  function ShowGridUnguarded(w: seq<seq<real>>, xRes: Option<real>, yRes: real, zoom: real, start: int, stop: int)
    : (r: Result<seq<seq<Cell>>, ShowError>)
    ensures w == [] <==> r == Err(NoData)
    ensures w != [] && !Rectangular(PySlice(w, start, stop)) ==> r == Err(Ragged)
    ensures w != [] && Rectangular(PySlice(w, start, stop)) ==>
      r == Isometric(PySlice(w, start, stop), xRes, yRes, zoom)
  {
    if |w| <= 0 then Err(NoData)
    else
      var grid := PySlice(w, start, stop);
      if !Rectangular(grid) then Err(Ragged) else Isometric(grid, xRes, yRes, zoom)
  }

  /** Without the start guard, a start index past the last row gives an empty stretched
      grid where utils/emb.py reports the index. */
  lemma NoStartGuard(w: seq<seq<real>>, xRes: Option<real>, yRes: real, zoom: real, start: int, stop: int)
    requires w != [] && start >= |w|
    requires StretchFactor(xRes, yRes, zoom).Ok?
    ensures ShowGridUnguarded(w, xRes, yRes, zoom, start, stop) == Ok([])
    ensures EmbPy.ShowGrid(w, xRes, yRes, zoom, start, stop) == Err(StartOutOfRange)
  {
    assert PySlice(w, start, stop) == [];
  }

  /** Both variants of `show` agree whenever the start index is inside the waterfall. */
  lemma ShowVariantsAgree(w: seq<seq<real>>, xRes: Option<real>, yRes: real, zoom: real, start: int, stop: int)
    requires start < |w|
    ensures ShowGridUnguarded(w, xRes, yRes, zoom, start, stop) == EmbPy.ShowGrid(w, xRes, yRes, zoom, start, stop)
  {
  }

  /** `waterfall_img(waterfall, zoom=zoom)`: the same stretching and mask applied to any
      waterfall, with no guard on its size. */
  function WaterfallImage(w: seq<seq<real>>, xRes: Option<real>, yRes: real, zoom: real)
    : (r: Result<seq<seq<Cell>>, ShowError>)
    ensures !Rectangular(w) ==> r == Err(Ragged)
    ensures Rectangular(w) ==> r == Isometric(w, xRes, yRes, zoom)
  {
    if !Rectangular(w) then Err(Ragged) else Isometric(w, xRes, yRes, zoom)
  }

  /** With a usable, non-negative stretch factor `k`, the stretched grid of any
      waterfall of `n` rows of equal width has one row per waterfall column, each of
      `n * k` cells; an empty waterfall gives an empty grid. */
  lemma WaterfallImageShape(w: seq<seq<real>>, xRes: Option<real>, yRes: real, zoom: real)
    requires Rectangular(w)
    requires StretchFactor(xRes, yRes, zoom).Ok? && StretchFactor(xRes, yRes, zoom).value >= 0
    ensures var r := WaterfallImage(w, xRes, yRes, zoom);
      && r.Ok? && |r.value| == Width(w)
      && forall c :: 0 <= c < |r.value| ==> |r.value[c]| == |w| * StretchFactor(xRes, yRes, zoom).value
    ensures w == [] ==> WaterfallImage(w, xRes, yRes, zoom) == Ok([])
  {
  }

  /** `show` stretches the shown window exactly as `waterfall_img` stretches a
      waterfall equal to that window. */
  lemma ShowIsWaterfallImageOfWindow(w: seq<seq<real>>, xRes: Option<real>, yRes: real, zoom: real, start: int, stop: int)
    requires w != []
    ensures ShowGridUnguarded(w, xRes, yRes, zoom, start, stop) == WaterfallImage(PySlice(w, start, stop), xRes, yRes, zoom)
  {
  }

  class Emb {
    /** The records the reader yields, in file order, and the geodesy calls. */
    const records: seq<Datagram>
    const geo: Geodesy
    /** How many records the reader has yielded since it was opened or rewound. */
    var pos: nat

    var xRes: Option<real>
    var yRes: real
    var beamCount: nat
    var distanceTravelled: real
    var positioningSystem: Option<int>
    var navigation: seq<NavRow>
    var leftExtents: real
    var rightExtents: real
    var minDepth: Extended
    var maxDepth: Extended
    var acrossMeans: seq<Option<real>>
    var origin: Option<LatLon>
    var waterfall: seq<seq<real>>
    var waterfallNav: seq<Option<NavRow>>
    var totalRecord: Option<nat>
    var previous: Option<LatLon>

    /** The fields as one value. */
    function State(): EmbState
      reads this`xRes, this`yRes, this`beamCount, this`distanceTravelled, this`positioningSystem, this`navigation
      reads this`leftExtents, this`rightExtents, this`minDepth, this`maxDepth, this`acrossMeans, this`origin
      reads this`waterfall, this`waterfallNav, this`totalRecord, this`previous
    {
      EmbState(xRes, yRes, beamCount, distanceTravelled, positioningSystem, navigation,
               leftExtents, rightExtents, minDepth, maxDepth, acrossMeans, origin,
               waterfall, waterfallNav, totalRecord, previous)
    }

    ghost predicate Valid()
      reads this
    {
      pos <= |records| && CopyConsistent(State())
    }

    /** `Emb(filename)`: the reader is opened on `records`. */
    constructor (records: seq<Datagram>, geo: Geodesy)
      ensures this.records == records && this.geo == geo && pos == 0
      ensures State() == Initial()
      ensures Valid()
    {
      this.records := records;
      this.geo := geo;
      pos := 0;
      xRes, yRes := Some(1.0), 1.0;
      beamCount := 0;
      distanceTravelled := 0.0;
      positioningSystem := None;
      navigation := [];
      leftExtents, rightExtents := 0.0, 0.0;
      minDepth, maxDepth := PosInf, NegInf;
      acrossMeans := [];
      origin := None;
      waterfall, waterfallNav := [], [];
      totalRecord := None;
      previous := None;
      new;
      InitialConsistent();
      ConsistentIsCopyConsistent(State());
    }

    /** `get_nav(enu)`: None without rows; otherwise fields 4 and 5 of every row when
        `enu` is set and there are at least five rows, else fields 2 and 3. */
    function GetNav(enu: bool): (r: Option<(seq<real>, seq<real>)>)
      reads this
      requires Valid() && Rectangular(navigation)
      ensures r.None? <==> navigation == []
      ensures r.Some? ==> |r.value.0| == |navigation| && |r.value.1| == |navigation|
      ensures r.Some? && enu && |navigation| >= 5 ==> forall i :: 0 <= i < |navigation| ==>
        r.value.0[i] == navigation[i][4] && r.value.1[i] == navigation[i][5]
      ensures r.Some? && !(enu && |navigation| >= 5) ==> forall i :: 0 <= i < |navigation| ==>
        r.value.0[i] == navigation[i][2] && r.value.1[i] == navigation[i][3]
    {
      if |navigation| == 0 then None
      else
        assert |navigation[0]| >= 6;
        NavColumns(navigation, enu)
    }

    /** The assignments of `set_nav(datagram, counter)`, as in utils/emb.py. */
    method SetNavFields(fix: PositionFix, time: real, counter: int)
      modifies this`positioningSystem, this`origin, this`previous, this`distanceTravelled, this`navigation
      ensures positioningSystem == if old(positioningSystem).None? then Some(fix.descriptor) else old(positioningSystem)
      ensures origin == Some(if old(origin).None? then fix.pos else old(origin).value)
      ensures distanceTravelled ==
        old(distanceTravelled) + RangeBetween(geo, if old(previous).None? then fix.pos else old(previous).value, fix.pos)
      ensures navigation == old(navigation) + [NavRowOf(counter, time, fix, EnuOf(geo, fix.pos, origin.value).0,
                                                         EnuOf(geo, fix.pos, origin.value).1)]
      ensures previous == Some(fix.pos)
    {
      var ps := if positioningSystem.None? then Some(fix.descriptor) else positioningSystem;
      var o := if origin.None? then fix.pos else origin.value;
      var prev := if previous.None? then fix.pos else previous.value;
      var en := EnuOf(geo, fix.pos, o);
      positioningSystem, origin, previous := ps, Some(o), Some(fix.pos);
      distanceTravelled := distanceTravelled + RangeBetween(geo, prev, fix.pos);
      navigation := navigation + [NavRowOf(counter, time, fix, en.0, en.1)];
    }

    /** The assignments of `set_depth_line(datagram, counter, navigation=nav)`, as in utils/emb.py. */
    method SetDepthLineFields(ping: Ping, counter: int, nav: Option<NavRow>)
      modifies this`acrossMeans, this`beamCount, this`minDepth, this`maxDepth, this`waterfall, this`waterfallNav
      ensures !Accepted(ping) ==>
        && acrossMeans == old(acrossMeans) && beamCount == old(beamCount)
        && minDepth == old(minDepth) && maxDepth == old(maxDepth)
        && waterfall == old(waterfall) && waterfallNav == old(waterfallNav)
      ensures Accepted(ping) ==>
        && acrossMeans == old(acrossMeans) + [MeanSpacing(NonZero(ping.acrossTrack))]
        && beamCount == Max(old(beamCount), |ping.depth|)
        && minDepth == MinE(old(minDepth), MinOf(CorrectedDepth(ping)))
        && maxDepth == MaxE(old(maxDepth), MaxOf(CorrectedDepth(ping)))
        && waterfall == [CorrectedDepth(ping)] + old(waterfall)
        && waterfallNav == [nav] + old(waterfallNav)
    {
      if ping.nBeams > 1 {
        var across := NonZero(ping.acrossTrack);
        acrossMeans := acrossMeans + [MeanSpacing(across)];
        beamCount := Max(beamCount, |ping.depth|);
        var dataDepth := CorrectedDepth(ping);
        minDepth := MinE(minDepth, MinOf(dataDepth));
        maxDepth := MaxE(maxDepth, MaxOf(dataDepth));
        waterfall := [dataDepth] + waterfall;
        waterfallNav := [nav] + waterfallNav;
      }
    }

    /** `set_nav` called on its own: one `set_nav` step, the invariant kept. */
    method SetNav(fix: PositionFix, time: real, counter: int)
      requires Valid()
      modifies this`positioningSystem, this`origin, this`previous, this`distanceTravelled, this`navigation
      ensures Valid()
      ensures State() == AfterSetNav(old(State()), fix, time, counter, geo)
    {
      SetNavFields(fix, time, counter);
      CopyConsistentAfterSetNav(old(State()), fix, time, counter, geo);
    }

    /** `set_depth_line` called on its own: one `set_depth_line` step, the invariant kept. */
    method SetDepthLine(ping: Ping, counter: int, nav: Option<NavRow>)
      requires Valid()
      modifies this`acrossMeans, this`beamCount, this`minDepth, this`maxDepth, this`waterfall, this`waterfallNav
      ensures Valid()
      ensures State() == AfterSetDepthLine(old(State()), ping, nav)
    {
      ghost var s0 := State();
      SetDepthLineFields(ping, counter, nav);
      if Accepted(ping) {
        CopyConsistentAfterPing(s0, ping, nav);
      }
    }

    /** The dispatch in the loop of `read_datagrams`, for a record that does not fail:
        as in utils/emb.py. */
    method Dispatch(d: Datagram, counter: nat)
      requires !(d.Depth? && navigation == [])
      modifies this`positioningSystem, this`origin, this`previous, this`distanceTravelled, this`navigation
      modifies this`acrossMeans, this`beamCount, this`minDepth, this`maxDepth, this`waterfall, this`waterfallNav
      ensures State() == AfterRecord(old(State()), d, counter, geo)
    {
      ghost var s0 := State();
      match d {
        case Position(time, fix) =>
          SetNavFields(fix, time, counter);
        case Depth(_, ping) =>
          var nav := LastNav(navigation);
          SetDepthLineFields(ping, counter, nav);
          if Accepted(ping) {
            assert State() == s0.(acrossMeans := acrossMeans, beamCount := beamCount, minDepth := minDepth,
              maxDepth := maxDepth, waterfall := waterfall, waterfallNav := waterfallNav);
          } else {
            assert State() == s0;
          }
        case Other(_) =>
      }
    }

    /** One pass of the loop of `read_datagrams`, for record `next` of the records
        `records[pos..]` read from state `s0`. A depth record met while there is no
        navigation row fails on `self._navigation[-1]` before anything changes. */
    method ReadStep(ghost s0: EmbState, next: nat) returns (ok: bool)
      requires pos <= next < |records|
      requires State() == AfterRecords(s0, records[pos..next], geo)
      requires NavIndexErrorAt(s0, records[pos..next], geo) == None
      modifies this`positioningSystem, this`origin, this`previous, this`distanceTravelled, this`navigation
      modifies this`acrossMeans, this`beamCount, this`minDepth, this`maxDepth, this`waterfall, this`waterfallNav
      ensures ok <==> !(records[next].Depth? && old(navigation) == [])
      ensures ok ==> State() == AfterRecords(s0, records[pos..next + 1], geo)
      ensures ok ==> NavIndexErrorAt(s0, records[pos..next + 1], geo) == None
      ensures !ok ==> State() == AfterRecords(s0, records[pos..next], geo)
    {
      if records[next].Depth? && |navigation| == 0 {
        return false;
      }
      ghost var before := State();
      Dispatch(records[next], next - pos);
      ExtendFold(before, State(), s0, records, pos, next, geo);
      ExtendNoNavIndexError(s0, records, pos, next, geo);
      ok := true;
    }

    /** The loop of `read_datagrams`: records are read while there are more and
        `counter <= max_number`, and the loop stops at the first record that fails;
        `ok` says whether it ran to its end. */
    method ReadRecordsUnguarded(maxNumber: Option<int>) returns (counter: nat, ok: bool)
      requires pos <= |records|
      modifies this`positioningSystem, this`origin, this`previous, this`distanceTravelled, this`navigation
      modifies this`acrossMeans, this`beamCount, this`minDepth, this`maxDepth, this`waterfall, this`waterfallNav
      ensures counter <= RecordsHandled(|records| - pos, maxNumber)
      ensures ok ==> counter == RecordsHandled(|records| - pos, maxNumber)
      ensures !ok ==> counter < RecordsHandled(|records| - pos, maxNumber)
      ensures State() == AfterRecords(old(State()), records[pos..pos + counter], geo)
      ensures NavIndexErrorAt(old(State()), records[pos..pos + counter], geo) == None
      ensures !ok ==> records[pos + counter].Depth? && navigation == []
    {
      ghost var s0 := State();
      ghost var n := RecordsHandled(|records| - pos, maxNumber);
      var next := pos;
      assert records[pos..next] == [];
      counter := 0;
      while next < |records| && (maxNumber.None? || counter <= maxNumber.value)
        invariant pos <= next <= |records|
        invariant counter == next - pos <= n
        invariant State() == AfterRecords(s0, records[pos..next], geo)
        invariant NavIndexErrorAt(s0, records[pos..next], geo) == None
        decreases |records| - next
      {
        ok := ReadStep(s0, next);
        if !ok {
          return;
        }
        next, counter := next + 1, counter + 1;
      }
      ok := true;
    }

    /** The loop of `read_datagrams` with the reader moved past the records it
        consumed: the failing record is consumed too. */
    method ReadWindow(maxNumber: Option<int>) returns (counter: nat, ok: bool)
      requires pos <= |records|
      modifies this`pos, this`positioningSystem, this`origin, this`previous, this`distanceTravelled, this`navigation
      modifies this`acrossMeans, this`beamCount, this`minDepth, this`maxDepth, this`waterfall, this`waterfallNav
      ensures ok <==> NavIndexErrorAt(old(State()), Window(records, old(pos), maxNumber), geo).None?
      ensures ok ==> counter == |Window(records, old(pos), maxNumber)| && pos == old(pos) + counter
      ensures !ok ==> NavIndexErrorAt(old(State()), Window(records, old(pos), maxNumber), geo) == Some(counter)
      ensures !ok ==> pos == old(pos) + counter + 1
      ensures State() == AfterRecords(old(State()), records[old(pos)..old(pos) + counter], geo)
      ensures ok ==> State() == AfterRecords(old(State()), Window(records, old(pos), maxNumber), geo)
    {
      ghost var s0, w := State(), Window(records, pos, maxNumber);
      counter, ok := ReadRecordsUnguarded(maxNumber);
      assert w[..counter] == records[pos..pos + counter];
      LoopOutcome(s0, w, counter, ok, geo);
      pos := if ok then pos + counter else pos + counter + 1;
    }

    /** The end of `read_datagrams`, as in utils/emb.py. */
    method Finish(counter: nat) returns (status: Status)
      modifies this`xRes, this`yRes, this`totalRecord
      ensures xRes == MeanOf(acrossMeans)
      ensures counter == 0 ==> status == Failed(ZeroDivision) && yRes == old(yRes) && totalRecord == old(totalRecord)
      ensures counter > 0 ==> status == Done && yRes == distanceTravelled / counter as real && totalRecord == Some(counter)
    {
      xRes := MeanOf(acrossMeans);
      if counter == 0 {
        return Failed(ZeroDivision);
      }
      yRes := distanceTravelled / counter as real;
      totalRecord := Some(counter);
      status := Done;
    }

    /** `read_datagrams(max_number)` without the invariant. */
    method ReadAndFinish(maxNumber: Option<int>) returns (status: Status)
      requires pos <= |records|
      modifies this`pos, this`positioningSystem, this`origin, this`previous, this`distanceTravelled, this`navigation
      modifies this`acrossMeans, this`beamCount, this`minDepth, this`maxDepth, this`waterfall, this`waterfallNav
      modifies this`xRes, this`yRes, this`totalRecord
      ensures var stop := NavIndexErrorAt(old(State()), Window(records, old(pos), maxNumber), geo);
        stop.Some? ==>
          && status == Failed(NavIndexError) && pos == old(pos) + stop.value + 1
          && State() == AfterRecords(old(State()), Window(records, old(pos), maxNumber)[..stop.value], geo)
      ensures var n := |Window(records, old(pos), maxNumber)|;
        NavIndexErrorAt(old(State()), Window(records, old(pos), maxNumber), geo).None? ==>
          && pos == old(pos) + n
          && (status.Failed? <==> n == 0)
          && (status.Failed? ==> status.error == ZeroDivision)
          && State() == Finalise(AfterRecords(old(State()), Window(records, old(pos), maxNumber), geo), n)
    {
      ghost var w := Window(records, pos, maxNumber);
      var counter, ok := ReadWindow(maxNumber);
      if !ok {
        assert w[..counter] == records[old(pos)..old(pos) + counter];
        return Failed(NavIndexError);
      }
      ghost var read := State();
      status := Finish(counter);
      assert State() == Finalise(read, counter);
    }

    /** `read_datagrams(max_number)`. When a depth record is met before any
        navigation row, the call fails right there with an IndexError, the record
        consumed and nothing finalised; otherwise it behaves as in utils/emb.py. */
    method ReadDatagrams(maxNumber: Option<int>) returns (status: Status)
      requires Valid()
      modifies this
      ensures Valid()
      ensures var stop := NavIndexErrorAt(old(State()), Window(records, old(pos), maxNumber), geo);
        stop.Some? ==>
          && status == Failed(NavIndexError) && pos == old(pos) + stop.value + 1
          && State() == AfterRecords(old(State()), Window(records, old(pos), maxNumber)[..stop.value], geo)
      ensures var n := |Window(records, old(pos), maxNumber)|;
        NavIndexErrorAt(old(State()), Window(records, old(pos), maxNumber), geo).None? ==>
          && pos == old(pos) + n
          && (status.Failed? <==> n == 0)
          && (status.Failed? ==> status.error == ZeroDivision)
          && State() == Finalise(AfterRecords(old(State()), Window(records, old(pos), maxNumber), geo), n)
    {
      ghost var s0, w := State(), Window(records, pos, maxNumber);
      status := ReadAndFinish(maxNumber);
      ReadKeepsCopyConsistent(s0, w, NavIndexErrorAt(s0, w, geo), State(), geo);
    }

    /** The view of the object and the locals of `read()` as one scan. */
    function ScanView(prev: Option<LatLon>, pCounter: nat, across: seq<Option<real>>,
                      left: seq<real>, right: seq<real>, wf: seq<seq<real>>): Scan
      reads this`positioningSystem, this`origin, this`distanceTravelled, this`navigation
      reads this`beamCount, this`minDepth, this`maxDepth
    {
      Scan(positioningSystem, origin, distanceTravelled, navigation, beamCount, minDepth, maxDepth,
           prev, pCounter, across, left, right, wf)
    }

    /** A position record in `read()`. */
    method ScanFix(fix: PositionFix, time: real, counter: nat, prev: Option<LatLon>, pCounter: nat)
      returns (prev': Option<LatLon>, pCounter': nat)
      requires prev.Some? ==> origin.Some?
      modifies this`positioningSystem, this`origin, this`distanceTravelled, this`navigation
      ensures var r := ScanPosition(old(ScanView(prev, pCounter, [], [], [], [])), fix, time, counter, geo);
        && positioningSystem == r.positioningSystem && origin == r.origin
        && distanceTravelled == r.distanceTravelled && navigation == r.navigation
        && prev' == r.prev && pCounter' == r.pCounter
    {
      prev', pCounter' := prev, pCounter;
      if positioningSystem.None? {
        positioningSystem := Some(fix.descriptor);
      }
      if positioningSystem == Some(fix.descriptor) {
        pCounter' := pCounter + 1;
        if prev'.None? {
          prev' := Some(fix.pos);
          if origin.None? {
            origin := Some(fix.pos);
          }
        }
        distanceTravelled := distanceTravelled + RangeBetween(geo, prev'.value, fix.pos);
        var en := EnuOf(geo, fix.pos, origin.value);
        navigation := navigation + [ScanRowOf(counter, time, fix, en.0, en.1)];
        prev' := Some(fix.pos);
      }
    }

    /** A depth record in `read()`. */
    method ScanPing(ping: Ping, across: seq<Option<real>>, left: seq<real>, right: seq<real>, wf: seq<seq<real>>)
      returns (across': seq<Option<real>>, left': seq<real>, right': seq<real>, wf': seq<seq<real>>)
      modifies this`beamCount, this`minDepth, this`maxDepth
      ensures var r := ScanDepth(old(ScanView(None, 0, across, left, right, wf)), ping);
        && beamCount == r.beamCount && minDepth == r.minDepth && maxDepth == r.maxDepth
        && across' == r.acrossMeans && left' == r.leftExtents && right' == r.rightExtents && wf' == r.waterfall
    {
      across', left', right', wf' := across, left, right, wf;
      if ping.nBeams > 1 {
        var nonZero := NonZero(ping.acrossTrack);
        if |nonZero| > 0 {
          across' := across' + [MeanSpacing(nonZero)];
          left' := left' + [MinOf(nonZero).v];
          right' := right' + [MaxOf(nonZero).v];
          beamCount := Max(beamCount, |ping.depth|);
        }
        var dataDepth := CorrectedDepth(ping);
        minDepth := MinE(minDepth, MinOf(dataDepth));
        maxDepth := MaxE(maxDepth, MaxOf(dataDepth));
        wf' := [dataDepth] + wf';
      }
    }

    /** One pass of the loop of `read()`, for the record read with counter `counter`. */
    method ScanNext(d: Datagram, counter: nat, prev: Option<LatLon>, pCounter: nat, across: seq<Option<real>>,
                    left: seq<real>, right: seq<real>, wf: seq<seq<real>>)
      returns (prev': Option<LatLon>, pCounter': nat, across': seq<Option<real>>,
               left': seq<real>, right': seq<real>, wf': seq<seq<real>>)
      requires prev.Some? ==> origin.Some?
      modifies this`positioningSystem, this`origin, this`distanceTravelled, this`navigation
      modifies this`beamCount, this`minDepth, this`maxDepth
      ensures ScanView(prev', pCounter', across', left', right', wf') ==
        ScanStep(old(ScanView(prev, pCounter, across, left, right, wf)), d, counter, geo)
      ensures prev'.Some? ==> origin.Some?
    {
      prev', pCounter', across', left', right', wf' := prev, pCounter, across, left, right, wf;
      match d {
        case Position(time, fix) =>
          prev', pCounter' := ScanFix(fix, time, counter, prev, pCounter);
        case Depth(_, ping) =>
          across', left', right', wf' := ScanPing(ping, across, left, right, wf);
        case Other(_) =>
      }
    }

    /** The loop of `read()`: every remaining record is read, record `i` of them with
        counter `i`. */
    method ScanAll(ghost sc: Scan) returns (counter: nat, across: seq<Option<real>>, left: seq<real>, right: seq<real>,
                                            wf: seq<seq<real>>)
      requires pos <= |records| && CopyConsistent(State())
      requires sc == ScanRecords(ScanStart(State()), records[pos..], geo)
      modifies this`positioningSystem, this`origin, this`distanceTravelled, this`navigation
      modifies this`beamCount, this`minDepth, this`maxDepth
      ensures counter == |records| - pos
      ensures positioningSystem == sc.positioningSystem && origin == sc.origin
      ensures distanceTravelled == sc.distanceTravelled && navigation == sc.navigation
      ensures beamCount == sc.beamCount && minDepth == sc.minDepth && maxDepth == sc.maxDepth
      ensures across == sc.acrossMeans && left == sc.leftExtents && right == sc.rightExtents && wf == sc.waterfall
    {
      ghost var start := ScanStart(State());
      var next := pos;
      var prev': Option<LatLon> := None;
      var pCounter': nat := 0;
      counter := 0;
      across, left, right, wf := [], [], [], [];
      assert records[pos..next] == [];
      while next < |records|
        invariant pos <= next <= |records| && counter == next - pos
        invariant ScanView(prev', pCounter', across, left, right, wf) == ScanRecords(start, records[pos..next], geo)
        invariant prev'.Some? ==> origin.Some?
        decreases |records| - next
      {
        ghost var before := ScanView(prev', pCounter', across, left, right, wf);
        prev', pCounter', across, left, right, wf := ScanNext(records[next], counter, prev', pCounter', across, left, right, wf);
        ExtendScan(before, ScanView(prev', pCounter', across, left, right, wf), start, records, pos, next, geo);
        next, counter := next + 1, counter + 1;
      }
      assert records[pos..next] == records[pos..];
    }

    /** The statements of `read()` after its loop, on the locals it accumulated. */
    method FinishScan(counter: nat, across: seq<Option<real>>, left: seq<real>, right: seq<real>, wf: seq<seq<real>>)
      returns (r: Result<seq<seq<real>>, ReadError>)
      modifies this`xRes, this`yRes, this`leftExtents, this`rightExtents, this`totalRecord
      ensures xRes == MeanOf(across)
      ensures counter == 0 ==> r == Err(ZeroDivision) && yRes == old(yRes)
      ensures counter > 0 ==> yRes == distanceTravelled / counter as real
      ensures counter > 0 && (left == [] || right == []) ==> r == Err(EmptyExtents)
      ensures r.Ok? <==> counter > 0 && left != [] && right != []
      ensures r.Ok? ==> r.value == wf && leftExtents == MinOf(left).v && rightExtents == MaxOf(right).v
      ensures r.Ok? ==> totalRecord == Some(counter)
      ensures !r.Ok? ==> leftExtents == old(leftExtents) && rightExtents == old(rightExtents)
      ensures !r.Ok? ==> totalRecord == old(totalRecord)
    {
      xRes := MeanOf(across);
      if counter == 0 {
        return Err(ZeroDivision);
      }
      yRes := distanceTravelled / counter as real;
      if |left| == 0 || |right| == 0 {
        return Err(EmptyExtents);
      }
      leftExtents := MinOf(left).v;
      rightExtents := MaxOf(right).v;
      totalRecord := Some(counter);
      r := Ok(wf);
    }

    /** `read()` without the invariant, field by field, given the scan `sc` its loop
        computes from the current state. */
    method ReadOnce(ghost sc: Scan) returns (r: Result<seq<seq<real>>, ReadError>)
      requires pos <= |records| && CopyConsistent(State())
      requires sc == ScanRecords(ScanStart(State()), records[pos..], geo)
      modifies this`pos, this`positioningSystem, this`origin, this`distanceTravelled, this`navigation
      modifies this`beamCount, this`minDepth, this`maxDepth
      modifies this`xRes, this`yRes, this`leftExtents, this`rightExtents, this`totalRecord
      ensures positioningSystem == sc.positioningSystem && origin == sc.origin
      ensures distanceTravelled == sc.distanceTravelled && navigation == sc.navigation
      ensures beamCount == sc.beamCount && minDepth == sc.minDepth && maxDepth == sc.maxDepth
      ensures xRes == MeanOf(sc.acrossMeans)
      ensures var counter := |records| - old(pos);
        && (counter == 0 ==> r == Err(ZeroDivision) && yRes == old(yRes))
        && (counter > 0 ==> yRes == sc.distanceTravelled / counter as real)
        && (counter > 0 && (sc.leftExtents == [] || sc.rightExtents == []) ==> r == Err(EmptyExtents))
        && (r.Ok? <==> counter > 0 && sc.leftExtents != [] && sc.rightExtents != [])
        && (r.Ok? ==> r.value == sc.waterfall && totalRecord == Some(counter))
      ensures r.Ok? ==> leftExtents == MinOf(sc.leftExtents).v && rightExtents == MaxOf(sc.rightExtents).v
      ensures !r.Ok? ==> leftExtents == old(leftExtents) && rightExtents == old(rightExtents)
      ensures !r.Ok? ==> totalRecord == old(totalRecord)
      ensures pos == if r.Ok? then 0 else |records|
    {
      var counter, across, left, right, wf := ScanAll(sc);
      r := FinishScan(counter, across, left, right, wf);
      pos := if r.Ok? then 0 else |records|;
    }

    /** `read()`: the remaining records are read once. `x_res` is the mean of the
        spacings of the pings scanned; the call fails with a division by zero when no
        record is left, and with an empty-array error when no ping had a non-zero
        across-track distance; otherwise the extents and the record total are stored,
        the reader is rewound and the waterfall is returned, newest ping first. */
    method Read() returns (r: Result<seq<seq<real>>, ReadError>)
      requires Valid()
      modifies this
      ensures Valid()
      ensures var fin := FinishRead(old(State()), ScanRecords(ScanStart(old(State())), records[old(pos)..], geo),
                                    |records| - old(pos));
        && State() == fin.0 && r == fin.1
        && pos == (if r.Ok? then 0 else |records|)
    {
      ghost var e, recs := State(), records[pos..];
      ghost var sc := ScanRecords(ScanStart(e), recs, geo);
      r := ReadOnce(sc);
      FinishReadFields(e, sc, |recs|, State(), r);
      CopyConsistentAfterRead(e, recs, geo);
    }

    /** `show(zoom=zoom, idxs=[start, stop])` up to the shading. */
    method Show(zoom: real, start: int, stop: int) returns (r: Result<seq<seq<Cell>>, ShowError>)
      ensures r == ShowGridUnguarded(waterfall, xRes, yRes, zoom, start, stop)
    {
      if |waterfall| <= 0 {
        return Err(NoData);
      }
      var npGrid := PySlice(waterfall, start, stop);
      if !Rectangular(npGrid) {
        return Err(Ragged);
      }
      r := StretchIsometric(npGrid, xRes, yRes, zoom);
    }

    /** `waterfall_img(w, zoom=zoom)` up to the shading. */
    method WaterfallImg(w: seq<seq<real>>, zoom: real) returns (r: Result<seq<seq<Cell>>, ShowError>)
      ensures r == WaterfallImage(w, xRes, yRes, zoom)
    {
      if !Rectangular(w) {
        return Err(Ragged);
      }
      r := StretchIsometric(w, xRes, yRes, zoom);
    }
  }

  /** The dispatch succeeded at record `j`: the loop over `recs[i..j + 1]` has not failed. */
  lemma ExtendNoNavIndexError(s: EmbState, recs: seq<Datagram>, i: nat, j: nat, geo: Geodesy)
    requires i <= j < |recs|
    requires NavIndexErrorAt(s, recs[i..j], geo) == None
    requires !(recs[j].Depth? && AfterRecords(s, recs[i..j], geo).navigation == [])
    ensures NavIndexErrorAt(s, recs[i..j + 1], geo) == None
  {
    assert recs[i..j + 1] == recs[i..j] + [recs[j]];
    NavIndexErrorSnoc(s, recs[i..j], recs[j], geo);
  }

  /** The records one call of `read_datagrams(max_number)` made at reader position
      `p` reads when nothing fails. */
  function Window(records: seq<Datagram>, p: nat, maxNumber: Option<int>): (w: seq<Datagram>)
    requires p <= |records|
    ensures |w| == RecordsHandled(|records| - p, maxNumber)
    ensures w == records[p..p + |w|]
  {
    records[p..p + RecordsHandled(|records| - p, maxNumber)]
  }

  /** How the loop over the window `w` ended, read off its first `c` records: it ran
      to its end, or it failed at record `c`. */
  lemma LoopOutcome(s0: EmbState, w: seq<Datagram>, c: nat, ok: bool, geo: Geodesy)
    requires c <= |w| && NavIndexErrorAt(s0, w[..c], geo) == None
    requires ok ==> c == |w|
    requires !ok ==> c < |w| && w[c].Depth? && AfterRecords(s0, w[..c], geo).navigation == []
    ensures ok <==> NavIndexErrorAt(s0, w, geo).None?
    ensures !ok ==> NavIndexErrorAt(s0, w, geo) == Some(c)
  {
    if ok {
      assert w[..c] == w;
    } else {
      assert w[..c + 1] == w[..c] + [w[c]];
      NavIndexErrorSnoc(s0, w[..c], w[c], geo);
      NavIndexErrorPrefix(s0, w, c + 1, geo);
    }
  }
}
