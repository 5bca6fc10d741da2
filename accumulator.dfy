/** The state an `Emb` object accumulates while the datagram stream is read, as a value,
    and the transitions that `set_nav`, `set_depth_line` and the `read_datagrams` loop
    make on it. The classes in emb.dfy and emb_copy1.dfy are proved against these. */
module Accumulator {
  import opened Common
  import opened Datagrams

  /** One row of `_navigation` as `set_nav` builds it:
      [counter, time, heading, latitude, longitude, east, north]. */
  type NavRow = seq<real>

  const NavWidth := 7
  const CounterField := 0
  const TimeField := 1
  const HeadingField := 2
  const LatitudeField := 3
  const LongitudeField := 4
  const EastField := 5
  const NorthField := 6

  /** The fields of `Emb` that reading changes. A None `xRes` or spacing stands for NaN. */
  datatype EmbState = EmbState(
    xRes: Option<real>,
    yRes: real,
    beamCount: nat,
    distanceTravelled: real,
    positioningSystem: Option<int>,
    navigation: seq<NavRow>,
    leftExtents: real,
    rightExtents: real,
    minDepth: Extended,
    maxDepth: Extended,
    acrossMeans: seq<Option<real>>,
    origin: Option<LatLon>,
    waterfall: seq<seq<real>>,
    waterfallNav: seq<Option<NavRow>>,
    totalRecord: Option<nat>,
    previous: Option<LatLon>)

  /** The state `__init__` leaves. */
  function Initial(): EmbState
  {
    EmbState(Some(1.0), 1.0, 0, 0.0, None, [], 0.0, 0.0, PosInf, NegInf, [], None, [], [], None, None)
  }

  function NavRowOf(counter: int, time: real, fix: PositionFix, east: real, north: real): NavRow
  {
    [counter as real, time, fix.heading, fix.pos.lat, fix.pos.lon, east, north]
  }

  /** `set_nav(datagram, counter)` with its default `add_enu=True`. */
  function AfterSetNav(s: EmbState, fix: PositionFix, time: real, counter: int, geo: Geodesy): EmbState
  {
    var ps := if s.positioningSystem.None? then Some(fix.descriptor) else s.positioningSystem;
    var o := if s.origin.None? then fix.pos else s.origin.value;
    var prev := if s.previous.None? then fix.pos else s.previous.value;
    var range := RangeBetween(geo, prev, fix.pos);
    var en := EnuOf(geo, fix.pos, o);
    s.(positioningSystem := ps, origin := Some(o),
       distanceTravelled := s.distanceTravelled + range,
       navigation := s.navigation + [NavRowOf(counter, time, fix, en.0, en.1)],
       previous := Some(fix.pos))
  }

  /** The row `set_nav` appends, field by field. */
  lemma SetNavRow(s: EmbState, fix: PositionFix, time: real, counter: int, geo: Geodesy)
    ensures var r := AfterSetNav(s, fix, time, counter, geo);
      && |r.navigation| == |s.navigation| + 1 && r.navigation[..|s.navigation|] == s.navigation
      && r.previous == Some(fix.pos)
      && (var row, o := r.navigation[|s.navigation|], r.origin.value;
          && |row| == NavWidth
          && row[CounterField] == counter as real && row[TimeField] == time
          && row[HeadingField] == fix.heading
          && row[LatitudeField] == fix.pos.lat && row[LongitudeField] == fix.pos.lon
          && (row[EastField], row[NorthField]) == EnuOf(geo, fix.pos, o))
      && r == s.(positioningSystem := r.positioningSystem, origin := r.origin,
                 distanceTravelled := r.distanceTravelled, navigation := r.navigation,
                 previous := r.previous)
  {
  }

  /** `set_depth_line(datagram, counter, navigation)`. */
  function AfterSetDepthLine(s: EmbState, p: Ping, nav: Option<NavRow>): EmbState
  {
    if !Accepted(p) then s
    else
      var d := CorrectedDepth(p);
      s.(acrossMeans := s.acrossMeans + [MeanSpacing(NonZero(p.acrossTrack))],
         beamCount := Max(s.beamCount, |p.depth|),
         minDepth := MinE(s.minDepth, MinOf(d)),
         maxDepth := MaxE(s.maxDepth, MaxOf(d)),
         waterfall := [d] + s.waterfall,
         waterfallNav := [nav] + s.waterfallNav)
  }

  /** What one `set_depth_line` call does: nothing for a ping of at most one beam;
      otherwise the corrected row and its navigation go in front, one spacing is
      appended, and the beam count and depth extents are widened. */
  lemma SetDepthLineEffect(s: EmbState, p: Ping, nav: Option<NavRow>)
    ensures var r := AfterSetDepthLine(s, p, nav);
      && (!Accepted(p) ==> r == s)
      && (Accepted(p) ==>
           && r.waterfall == [CorrectedDepth(p)] + s.waterfall
           && r.waterfallNav == [nav] + s.waterfallNav
           && r.acrossMeans == s.acrossMeans + [MeanSpacing(NonZero(p.acrossTrack))]
           && r.beamCount == Max(s.beamCount, |p.depth|)
           && r.minDepth == MinE(s.minDepth, MinOf(CorrectedDepth(p)))
           && r.maxDepth == MaxE(s.maxDepth, MaxOf(CorrectedDepth(p)))
           && r == s.(waterfall := r.waterfall, waterfallNav := r.waterfallNav, acrossMeans := r.acrossMeans,
                      beamCount := r.beamCount, minDepth := r.minDepth, maxDepth := r.maxDepth))
  {
  }

  /** `self._navigation[-1]` if there is one, else None. */
  function LastNav(nav: seq<NavRow>): (r: Option<NavRow>)
    ensures r.None? <==> nav == []
    ensures r.Some? ==> r.value == nav[|nav| - 1]
  {
    if |nav| > 0 then Some(nav[|nav| - 1]) else None
  }

  /** One pass of the `read_datagrams` loop body in utils/emb.py, for the record read
      while the counter is `counter`. */
  function AfterRecord(s: EmbState, d: Datagram, counter: nat, geo: Geodesy): EmbState
  {
    match d
    case Position(time, fix) => AfterSetNav(s, fix, time, counter, geo)
    case Depth(_, p) => AfterSetDepthLine(s, p, LastNav(s.navigation))
    case Other(_) => s
  }

  /** A record that is neither a position nor a depth changes nothing; a depth record
      that arrives before any position is stored with no navigation. */
  lemma RecordEffect(s: EmbState, d: Datagram, counter: nat, geo: Geodesy)
    ensures d.Other? ==> AfterRecord(s, d, counter, geo) == s
    ensures d.Depth? && Accepted(d.ping) ==>
      AfterRecord(s, d, counter, geo).waterfallNav == [LastNav(s.navigation)] + s.waterfallNav
    ensures d.Depth? && Accepted(d.ping) && s.navigation == [] ==>
      AfterRecord(s, d, counter, geo).waterfallNav[0] == None
  {
  }

  /** The loop over `recs`, the i-th record read with counter i. */
  function AfterRecords(s: EmbState, recs: seq<Datagram>, geo: Geodesy): EmbState
    decreases |recs|
  {
    if recs == [] then s
    else AfterRecord(AfterRecords(s, recs[..|recs| - 1], geo), recs[|recs| - 1], |recs| - 1, geo)
  }

  /** One more record extends the fold by one step, read with the next counter. */
  lemma AfterRecordsSnoc(s: EmbState, recs: seq<Datagram>, d: Datagram, geo: Geodesy)
    ensures AfterRecords(s, recs + [d], geo) == AfterRecord(AfterRecords(s, recs, geo), d, |recs|, geo)
  {
    assert (recs + [d])[..|recs|] == recs;
  }

  /** One more pass of the loop extends the fold over `recs[i..j]` to `recs[i..j + 1]`. */
  lemma ExtendFold(before: EmbState, after: EmbState, s: EmbState, recs: seq<Datagram>, i: nat, j: nat, geo: Geodesy)
    requires i <= j < |recs|
    requires before == AfterRecords(s, recs[i..j], geo)
    requires after == AfterRecord(before, recs[j], j - i, geo)
    ensures after == AfterRecords(s, recs[i..j + 1], geo)
  {
    assert recs[i..j + 1] == recs[i..j] + [recs[j]];
    AfterRecordsSnoc(s, recs[i..j], recs[j], geo);
  }

  /** How many records `while moreData() and counter <= max_number` handles when
      `available` records remain; None is the default `max_number=float('Inf')`. */
  function RecordsHandled(available: nat, maxNumber: Option<int>): (n: nat)
    ensures n <= available
    ensures maxNumber.Some? ==> n <= Max(maxNumber.value + 1, 0)
    ensures maxNumber.None? || maxNumber.value + 1 >= available ==> n == available
  {
    match maxNumber
    case None => available
    case Some(m) => Min(available, Max(m + 1, 0))
  }

  /** What `max_number` evidently means: at most `max_number` datagrams are read. */
  function RecordsHandledIntended(available: nat, maxNumber: Option<int>): (n: nat)
    ensures n <= available
    ensures maxNumber.Some? ==> n <= Max(maxNumber.value, 0)
    ensures maxNumber.None? || maxNumber.value >= available ==> n == available
  {
    match maxNumber
    case None => available
    case Some(m) => Min(available, Max(m, 0))
  }

  /** With `max_number=0` the loop still reads one datagram. */
  lemma MaxNumberReadsOneMore(available: nat, m: nat)
    requires m < available
    ensures RecordsHandled(available, Some(m)) == m + 1
    ensures RecordsHandledIntended(available, Some(m)) == m
  {
  }

  /** The statements after the `read_datagrams` loop: `x_res` is always set; dividing
      by `counter` fails when no record was read, before `y_res` and `total_record`
      are set. */
  function Finalise(s: EmbState, counter: nat): EmbState
  {
    var s' := s.(xRes := MeanOf(s.acrossMeans));
    if counter == 0 then s'
    else s'.(yRes := s.distanceTravelled / counter as real, totalRecord := Some(counter))
  }

  /** `x_res` is the mean spacing; `y_res` is the distance per record read. */
  lemma FinaliseEffect(s: EmbState, counter: nat)
    ensures var r := Finalise(s, counter);
      && r.xRes == MeanOf(s.acrossMeans)
      && (counter > 0 ==> r.yRes * counter as real == s.distanceTravelled && r.totalRecord == Some(counter))
      && (counter == 0 ==> r.yRes == s.yRes && r.totalRecord == s.totalRecord)
      && r == s.(xRes := r.xRes, yRes := r.yRes, totalRecord := r.totalRecord)
  {
  }

  // ---------------------------------------------------------------------------
  // Invariants of the accumulated state

  /** The largest row width, 0 for no rows. */
  function MaxWidth(w: seq<seq<real>>): (m: nat)
    ensures forall i :: 0 <= i < |w| ==> |w[i]| <= m
    ensures w == [] ==> m == 0
    ensures w != [] ==> exists i :: 0 <= i < |w| && |w[i]| == m
  {
    if w == [] then 0
    else
      var rest := MaxWidth(w[1..]);
      assert forall i :: 1 <= i < |w| ==> w[i] == w[1..][i - 1];
      Max(|w[0]|, rest)
  }

  /** The smallest depth stored in any row. */
  function MinOfRows(w: seq<seq<real>>): (m: Extended)
    ensures forall i, j :: 0 <= i < |w| && 0 <= j < |w[i]| ==> Le(m, Finite(w[i][j]))
  {
    if w == [] then PosInf
    else
      var rest := MinOfRows(w[1..]);
      assert forall i :: 1 <= i < |w| ==> w[i] == w[1..][i - 1];
      MinE(MinOf(w[0]), rest)
  }

  /** The largest depth stored in any row. */
  function MaxOfRows(w: seq<seq<real>>): (m: Extended)
    ensures forall i, j :: 0 <= i < |w| && 0 <= j < |w[i]| ==> Le(Finite(w[i][j]), m)
  {
    if w == [] then NegInf
    else
      var rest := MaxOfRows(w[1..]);
      assert forall i :: 1 <= i < |w| ==> w[i] == w[1..][i - 1];
      MaxE(MaxOf(w[0]), rest)
  }

  /** What every state reachable from `Initial` through `set_nav` and `set_depth_line`
      satisfies: the waterfall, its navigation and the spacing list stay in lockstep;
      `_beam_count` is the widest row; the depth extents are exactly those of the
      stored rows; origin, previous position and positioning system are set iff some
      navigation row exists; every navigation row has seven fields. */
  predicate Consistent(s: EmbState)
  {
    && |s.waterfallNav| == |s.waterfall|
    && |s.acrossMeans| == |s.waterfall|
    && s.beamCount == MaxWidth(s.waterfall)
    && s.minDepth == MinOfRows(s.waterfall)
    && s.maxDepth == MaxOfRows(s.waterfall)
    && (s.origin.Some? <==> s.navigation != [])
    && (s.previous.Some? <==> s.navigation != [])
    && (s.positioningSystem.Some? <==> s.navigation != [])
    && forall i :: 0 <= i < |s.navigation| ==> |s.navigation[i]| == NavWidth
  }

  lemma InitialConsistent()
    ensures Consistent(Initial())
  {
  }

  lemma MinECommutes(a: Extended, b: Extended)
    ensures MinE(a, b) == MinE(b, a) && MaxE(a, b) == MaxE(b, a)
  {
  }

  lemma ConsistentAfterSetNav(s: EmbState, fix: PositionFix, time: real, counter: int, geo: Geodesy)
    requires Consistent(s)
    ensures Consistent(AfterSetNav(s, fix, time, counter, geo))
  {
    var r := AfterSetNav(s, fix, time, counter, geo);
    forall i | 0 <= i < |r.navigation| ensures |r.navigation[i]| == NavWidth {
      if i < |s.navigation| {
        assert r.navigation[i] == r.navigation[..|s.navigation|][i];
      }
    }
  }

  lemma ConsistentAfterSetDepthLine(s: EmbState, p: Ping, nav: Option<NavRow>)
    requires Consistent(s)
    ensures Consistent(AfterSetDepthLine(s, p, nav))
  {
    if Accepted(p) {
      var dd := CorrectedDepth(p);
      var w := [dd] + s.waterfall;
      assert w[1..] == s.waterfall;
      MinECommutes(s.minDepth, MinOf(dd));
      MinECommutes(s.maxDepth, MaxOf(dd));
    }
  }

  lemma ConsistentAfterRecord(s: EmbState, d: Datagram, counter: nat, geo: Geodesy)
    requires Consistent(s)
    ensures Consistent(AfterRecord(s, d, counter, geo))
  {
    match d
    case Position(time, fix) => ConsistentAfterSetNav(s, fix, time, counter, geo);
    case Depth(_, p) => ConsistentAfterSetDepthLine(s, p, LastNav(s.navigation));
    case Other(_) =>
  }

  lemma FinaliseKeepsConsistent(s: EmbState, counter: nat)
    requires Consistent(s)
    ensures Consistent(Finalise(s, counter))
  {
  }

  lemma {:induction false} ConsistentAfterRecords(s: EmbState, recs: seq<Datagram>, geo: Geodesy)
    requires Consistent(s)
    ensures Consistent(AfterRecords(s, recs, geo))
    decreases |recs|
  {
    if recs != [] {
      ConsistentAfterRecords(s, recs[..|recs| - 1], geo);
      ConsistentAfterRecord(AfterRecords(s, recs[..|recs| - 1], geo), recs[|recs| - 1], |recs| - 1, geo);
    }
  }

  /** Every stored depth lies between `_min_depth` and `_max_depth`. */
  lemma DepthsWithinExtents(s: EmbState)
    requires Consistent(s)
    ensures forall i, j :: 0 <= i < |s.waterfall| && 0 <= j < |s.waterfall[i]| ==>
      Le(s.minDepth, Finite(s.waterfall[i][j])) && Le(Finite(s.waterfall[i][j]), s.maxDepth)
  {
  }

  // ---------------------------------------------------------------------------
  // What the loop does over a whole stream

  /** The first position fix in `recs`, read front to back. */
  function FirstFix(recs: seq<Datagram>): (f: Option<PositionFix>)
    ensures f.None? <==> forall i :: 0 <= i < |recs| ==> !recs[i].Position?
  {
    if recs == [] then None
    else if recs[0].Position? then Some(recs[0].fix)
    else
      assert forall i :: 1 <= i < |recs| ==> recs[i] == recs[1..][i - 1];
      FirstFix(recs[1..])
  }

  lemma {:induction false} FirstFixSnoc(recs: seq<Datagram>, d: Datagram)
    ensures FirstFix(recs + [d]) ==
      if FirstFix(recs).Some? then FirstFix(recs) else if d.Position? then Some(d.fix) else None
  {
    if recs != [] {
      assert (recs + [d])[1..] == recs[1..] + [d];
      FirstFixSnoc(recs[1..], d);
    }
  }

  /** The origin and the positioning system are those of the first position record and
      are never changed afterwards. */
  lemma {:induction false} OriginFromFirstFix(s: EmbState, recs: seq<Datagram>, geo: Geodesy)
    ensures var r, f := AfterRecords(s, recs, geo), FirstFix(recs);
      && r.origin == (if s.origin.Some? then s.origin else if f.Some? then Some(f.value.pos) else None)
      && r.positioningSystem ==
           (if s.positioningSystem.Some? then s.positioningSystem
            else if f.Some? then Some(f.value.descriptor) else None)
    decreases |recs|
  {
    if recs != [] {
      var init := recs[..|recs| - 1];
      assert recs == init + [recs[|recs| - 1]];
      OriginFromFirstFix(s, init, geo);
      FirstFixSnoc(init, recs[|recs| - 1]);
    }
  }

  /** With a range that is never negative, the distance travelled never decreases. */
  lemma {:induction false} DistanceNonDecreasing(s: EmbState, recs: seq<Datagram>, geo: Geodesy)
    requires forall a, b, c, d :: geo.range(a, b, c, d) >= 0.0
    ensures AfterRecords(s, recs, geo).distanceTravelled >= s.distanceTravelled
    decreases |recs|
  {
    if recs != [] {
      DistanceNonDecreasing(s, recs[..|recs| - 1], geo);
    }
  }

  function CountPositions(recs: seq<Datagram>): nat
  {
    if recs == [] then 0 else (if recs[|recs| - 1].Position? then 1 else 0) + CountPositions(recs[..|recs| - 1])
  }

  /** `_navigation` is append-only and gains one row per position record. */
  lemma {:induction false} NavigationAppendOnly(s: EmbState, recs: seq<Datagram>, geo: Geodesy)
    ensures var r := AfterRecords(s, recs, geo);
      |r.navigation| == |s.navigation| + CountPositions(recs) && s.navigation <= r.navigation
    decreases |recs|
  {
    if recs != [] {
      NavigationAppendOnly(s, recs[..|recs| - 1], geo);
    }
  }

  /** The corrected depth rows of the accepted pings of `recs`, in arrival order. */
  function AcceptedRows(recs: seq<Datagram>): seq<seq<real>>
  {
    if recs == [] then []
    else
      (if recs[0].Depth? && Accepted(recs[0].ping) then [CorrectedDepth(recs[0].ping)] else [])
      + AcceptedRows(recs[1..])
  }

  lemma {:induction false} AcceptedRowsSnoc(recs: seq<Datagram>, d: Datagram)
    ensures AcceptedRows(recs + [d]) ==
      AcceptedRows(recs) + (if d.Depth? && Accepted(d.ping) then [CorrectedDepth(d.ping)] else [])
  {
    if recs != [] {
      assert (recs + [d])[1..] == recs[1..] + [d];
      AcceptedRowsSnoc(recs[1..], d);
    }
  }

  /** The waterfall holds the accepted pings newest first, ahead of what it held. */
  lemma WaterfallAfterRecord(s: EmbState, d: Datagram, counter: nat, geo: Geodesy)
    ensures AfterRecord(s, d, counter, geo).waterfall ==
      (if d.Depth? && Accepted(d.ping) then [CorrectedDepth(d.ping)] else []) + s.waterfall
  {
  }

  lemma {:induction false} WaterfallNewestFirst(s: EmbState, recs: seq<Datagram>, geo: Geodesy)
    ensures AfterRecords(s, recs, geo).waterfall == Reverse(AcceptedRows(recs)) + s.waterfall
    decreases |recs|
  {
    if recs != [] {
      var init, d := recs[..|recs| - 1], recs[|recs| - 1];
      assert recs == init + [d];
      var prev := AfterRecords(s, init, geo);
      WaterfallNewestFirst(s, init, geo);
      WaterfallAfterRecord(prev, d, |recs| - 1, geo);
      AcceptedRowsSnoc(init, d);
      if d.Depth? && Accepted(d.ping) {
        assert AcceptedRows(recs) == AcceptedRows(init) + [CorrectedDepth(d.ping)];
        ReverseAppend(AcceptedRows(init), CorrectedDepth(d.ping));
      } else {
        assert AcceptedRows(recs) == AcceptedRows(init) + [];
        assert AcceptedRows(init) + [] == AcceptedRows(init);
      }
    }
  }

  /** Feeding pings R1, R2, R3 gives the waterfall [R3, R2, R1]. */
  lemma ThreePingsReversed(p1: Ping, p2: Ping, p3: Ping, geo: Geodesy)
    requires Accepted(p1) && Accepted(p2) && Accepted(p3)
    ensures AfterRecords(Initial(), [Depth(XYZ88, p1), Depth(Depth68, p2), Depth(XYZ88, p3)], geo).waterfall
      == [CorrectedDepth(p3), CorrectedDepth(p2), CorrectedDepth(p1)]
  {
    var recs := [Depth(XYZ88, p1), Depth(Depth68, p2), Depth(XYZ88, p3)];
    var s0 := Initial();
    assert recs[..1][..0] == [];
    assert AfterRecords(s0, recs[..1][..0], geo) == s0;
    var s1 := AfterRecords(s0, recs[..1], geo);
    assert recs[..1][0] == recs[0];
    assert s1 == AfterRecord(s0, recs[0], 0, geo);
    assert s1.waterfall == [CorrectedDepth(p1)];
    assert recs[..2][..1] == recs[..1];
    var s2 := AfterRecords(s0, recs[..2], geo);
    assert s2 == AfterRecord(s1, recs[1], 1, geo);
    assert s2.waterfall == [CorrectedDepth(p2), CorrectedDepth(p1)];
    assert recs[..2] == recs[..|recs| - 1];
    assert AfterRecords(s0, recs, geo) == AfterRecord(s2, recs[2], 2, geo);
  }

  // ---------------------------------------------------------------------------
  // get_nav

  /** `get_nav(enu)` on the rows of `_navigation`: fields 4 and 5 when `enu` is set and
      there are at least 5 rows, else fields 2 and 3; None when there are no rows. */
  function NavColumns(nav: seq<NavRow>, enu: bool): (r: Option<(seq<real>, seq<real>)>)
    requires Rectangular(nav) && (nav != [] ==> |nav[0]| >= 6)
    ensures r.None? <==> nav == []
    ensures r.Some? ==> |r.value.0| == |nav| && |r.value.1| == |nav|
    ensures r.Some? && enu && |nav| >= 5 ==>
      forall i :: 0 <= i < |nav| ==> r.value.0[i] == nav[i][4] && r.value.1[i] == nav[i][5]
    ensures r.Some? && !(enu && |nav| >= 5) ==>
      forall i :: 0 <= i < |nav| ==> r.value.0[i] == nav[i][2] && r.value.1[i] == nav[i][3]
  {
    if |nav| == 0 then None
    else if enu && |nav| >= 5 then Some((Column(nav, 4), Column(nav, 5)))
    else Some((Column(nav, 2), Column(nav, 3)))
  }

  /** On rows laid out by `set_nav`, `get_nav()` pairs headings with latitudes and
      `get_nav(enu=True)` pairs longitudes with eastings. */
  lemma NavColumnsOfSetNavRows(nav: seq<NavRow>, enu: bool)
    requires nav != [] && forall i :: 0 <= i < |nav| ==> |nav[i]| == NavWidth
    ensures var r := NavColumns(nav, enu);
      && r.Some?
      && (enu && |nav| >= 5 ==> forall i :: 0 <= i < |nav| ==>
            r.value.0[i] == nav[i][LongitudeField] && r.value.1[i] == nav[i][EastField])
      && (!(enu && |nav| >= 5) ==> forall i :: 0 <= i < |nav| ==>
            r.value.0[i] == nav[i][HeadingField] && r.value.1[i] == nav[i][LatitudeField])
  {
  }

  /** A single fix at latitude 10, longitude 20, heading 90: `get_nav()` answers
      ([90], [10]) instead of the latitudes and longitudes ([10], [20]). */
  lemma GetNavCounterexample(time: real, geo: Geodesy)
    ensures var s := AfterSetNav(Initial(), PositionFix(LatLon(10.0, 20.0), 90.0, 1), time, 0, geo);
      && NavColumns(s.navigation, false) == Some(([90.0], [10.0]))
      && NavColumnsIntended(s.navigation, false) == Some(([10.0], [20.0]))
  {
    var fix := PositionFix(LatLon(10.0, 20.0), 90.0, 1);
    var nav := AfterSetNav(Initial(), fix, time, 0, geo).navigation;
    assert |nav| == 1 && |nav[0]| == NavWidth;
    assert nav[0][HeadingField] == 90.0 && nav[0][LatitudeField] == 10.0 && nav[0][LongitudeField] == 20.0;
    var asWritten, intended := NavColumns(nav, false).value, NavColumnsIntended(nav, false).value;
    assert asWritten.0 == [90.0] && asWritten.1 == [10.0];
    assert intended.0 == [10.0] && intended.1 == [20.0];
  }

  /** `get_nav` as its documentation describes it for rows laid out by `set_nav`:
      latitudes and longitudes, or eastings and northings. */
  function NavColumnsIntended(nav: seq<NavRow>, enu: bool): (r: Option<(seq<real>, seq<real>)>)
    requires forall i :: 0 <= i < |nav| ==> |nav[i]| == NavWidth
    ensures r.None? <==> nav == []
    ensures r.Some? ==> |r.value.0| == |nav| && |r.value.1| == |nav|
    ensures r.Some? && enu && |nav| >= 5 ==> forall i :: 0 <= i < |nav| ==>
      r.value.0[i] == nav[i][EastField] && r.value.1[i] == nav[i][NorthField]
    ensures r.Some? && !(enu && |nav| >= 5) ==> forall i :: 0 <= i < |nav| ==>
      r.value.0[i] == nav[i][LatitudeField] && r.value.1[i] == nav[i][LongitudeField]
  {
    if |nav| == 0 then None
    else if enu && |nav| >= 5 then Some((Column(nav, EastField), Column(nav, NorthField)))
    else Some((Column(nav, LatitudeField), Column(nav, LongitudeField)))
  }

  /** After `set_nav` on any consistent state, the intended `get_nav(enu)` gives the
      earlier rows' coordinates unchanged and, for the new row, the fix's latitude and
      longitude, or its easting and northing about the origin once `enu` is set and
      there are at least 5 rows. */
  lemma NavColumnsIntendedAfterSetNav(s: EmbState, fix: PositionFix, time: real, counter: int, geo: Geodesy, enu: bool)
    requires Consistent(s)
    ensures var r := AfterSetNav(s, fix, time, counter, geo);
      var n := |s.navigation|;
      var cols := NavColumnsIntended(r.navigation, enu);
      && cols.Some? && |cols.value.0| == n + 1 && |cols.value.1| == n + 1
      && (enu && n + 1 >= 5 ==>
           && (forall i :: 0 <= i < n ==>
                 cols.value.0[i] == s.navigation[i][EastField] && cols.value.1[i] == s.navigation[i][NorthField])
           && (cols.value.0[n], cols.value.1[n]) == EnuOf(geo, fix.pos, r.origin.value))
      && (!(enu && n + 1 >= 5) ==>
           && (forall i :: 0 <= i < n ==>
                 cols.value.0[i] == s.navigation[i][LatitudeField] && cols.value.1[i] == s.navigation[i][LongitudeField])
           && cols.value.0[n] == fix.pos.lat && cols.value.1[n] == fix.pos.lon)
  {
    ConsistentAfterSetNav(s, fix, time, counter, geo);
    SetNavRow(s, fix, time, counter, geo);
    var r := AfterSetNav(s, fix, time, counter, geo);
    forall i | 0 <= i < |s.navigation| ensures r.navigation[i] == s.navigation[i] {
      assert r.navigation[i] == r.navigation[..|s.navigation|][i];
    }
  }

  /** The error kinds of the reading loops. */
  datatype ReadError =
    | ZeroDivision     // `distance_travelled / counter` with no record read
    | NavIndexError    // `self._navigation[-1]` on an empty list
    | EmptyExtents     // `np.min` of an empty extents array

  datatype Status = Done | Failed(error: ReadError)
}
