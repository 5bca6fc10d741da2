/** The decoded record stream the `.all` datagram reader yields, and the per-ping
    arithmetic done on a depth record before it is stored. */
module Datagrams {
  import opened Common

  datatype LatLon = LatLon(lat: real, lon: real)

  /** A decoded position datagram ('P'): fix, heading and positioning-system descriptor. */
  datatype PositionFix = PositionFix(pos: LatLon, heading: real, descriptor: int)

  /** A depth datagram as decoded by the reader: `NBeams` beams, a depth and an
      across-track distance per beam, and the transducer depth of the ping. */
  datatype RawPing = RawPing(nBeams: int, depth: seq<real>, acrossTrack: seq<real>, transducerDepth: real)

  /** The reader decodes exactly `NBeams` entries into each per-beam array. */
  type Ping = p: RawPing | |p.depth| == p.nBeams && |p.acrossTrack| == p.nBeams
    witness RawPing(0, [], [], 0.0)

  /** The two depth datagram kinds: 'X' (XYZ 88) and 'D' (depth). */
  datatype DepthKind = XYZ88 | Depth68

  /** One record of the stream. `time` is what the reader's `currentRecordDateTime`
      reports while the record is current. */
  datatype Datagram =
    | Position(time: real, fix: PositionFix)
    | Depth(kind: DepthKind, ping: Ping)
    | Other(tag: char)

  /** The foreign geodesy calls: the range of
      `calculateRangeBearingFromGeographicals(lon1, lat1, lon2, lat2)` and the
      (east, north) of `geodetic2enu(lat, lon, 0, lat0, lon0, 0)`. */
  datatype Geodesy = Geodesy(
    range: (real, real, real, real) -> real,
    toEnu: (real, real, real, real) -> (real, real))

  /** The range from `a` to `b`, the first result of the range-and-bearing call. */
  function RangeBetween(geo: Geodesy, a: LatLon, b: LatLon): real
  {
    geo.range(a.lon, a.lat, b.lon, b.lat)
  }

  /** The (east, north) of `p` in the local frame about `origin`, at zero heights. */
  function EnuOf(geo: Geodesy, p: LatLon, origin: LatLon): (real, real)
  {
    geo.toEnu(p.lat, p.lon, origin.lat, origin.lon)
  }

  /** A ping is kept only when it has more than one beam. */
  predicate Accepted(p: Ping)
  {
    p.nBeams > 1
  }

  /** `Depth + TransducerDepth`, element by element. */
  function CorrectedDepth(p: Ping): (d: seq<real>)
    ensures |d| == |p.depth|
    ensures forall i :: 0 <= i < |d| ==> d[i] == p.depth[i] + p.transducerDepth
  {
    seq(|p.depth|, i requires 0 <= i < |p.depth| => p.depth[i] + p.transducerDepth)
  }

  /** `[x for x in xs if x != 0.0]`: every non-zero element kept as often as it occurs,
      and every zero dropped. The order is kept too (`NonZeroAppend`). */
  function NonZero(xs: seq<real>): (r: seq<real>)
    ensures |r| <= |xs|
    ensures forall i :: 0 <= i < |r| ==> r[i] != 0.0
    ensures multiset(r) == multiset(xs)[0.0 := 0]
  {
    if xs == [] then []
    else if xs[0] != 0.0 then
      assert xs == [xs[0]] + xs[1..];
      [xs[0]] + NonZero(xs[1..])
    else
      assert xs == [xs[0]] + xs[1..];
      NonZero(xs[1..])
  }

  /** The filter keeps the relative order: filtering a concatenation is the
      concatenation of the filtered parts. */
  lemma {:induction false} NonZeroAppend(a: seq<real>, b: seq<real>)
    ensures NonZero(a + b) == NonZero(a) + NonZero(b)
  {
    if a == [] {
      assert a + b == b;
    } else {
      assert (a + b)[1..] == a[1..] + b;
      NonZeroAppend(a[1..], b);
    }
  }

  /** Filtering a filtered list changes nothing. */
  lemma {:induction false} NonZeroIdempotent(xs: seq<real>)
    ensures NonZero(NonZero(xs)) == NonZero(xs)
  {
    if xs != [] {
      NonZeroIdempotent(xs[1..]);
      if xs[0] != 0.0 {
        assert ([xs[0]] + NonZero(xs[1..]))[1..] == NonZero(xs[1..]);
      }
    }
  }

  function Abs(x: real): real { if x < 0.0 then -x else x }

  /** The sum of `abs(np.diff(xs))`. */
  function SumAbsDiff(xs: seq<real>): (r: real)
    ensures r >= 0.0
  {
    if |xs| < 2 then 0.0 else Abs(xs[1] - xs[0]) + SumAbsDiff(xs[1..])
  }

  /** `np.average(abs(np.diff(xs)))`, the mean beam spacing of a ping. The average of
      an empty difference (fewer than two beams) is NaN, written None here. */
  function MeanSpacing(xs: seq<real>): (r: Option<real>)
    ensures r.Some? <==> |xs| >= 2
    ensures r.Some? ==> r.value >= 0.0
  {
    if |xs| < 2 then None else Some(SumAbsDiff(xs) / (|xs| - 1) as real)
  }

  function SumAll(xs: seq<real>): real
  {
    if xs == [] then 0.0 else xs[0] + SumAll(xs[1..])
  }

  /** `np.average` of a list of per-ping spacings: NaN (None) when the list is empty or
      holds a NaN. */
  function MeanOf(xs: seq<Option<real>>): (r: Option<real>)
    ensures r.Some? <==> |xs| > 0 && forall i :: 0 <= i < |xs| ==> xs[i].Some?
  {
    if xs == [] || exists i :: 0 <= i < |xs| && xs[i].None? then None
    else Some(SumAll(Values(xs)) / |xs| as real)
  }

  function Values(xs: seq<Option<real>>): (r: seq<real>)
    requires forall i :: 0 <= i < |xs| ==> xs[i].Some?
    ensures |r| == |xs|
  {
    seq(|xs|, i requires 0 <= i < |xs| => xs[i].value)
  }
}
