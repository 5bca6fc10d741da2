/** Small value types and sequence helpers shared by the modules of the waterfall model. */
module Common {

  datatype Option<+T> = None | Some(value: T)

  datatype Result<+T, +E> = Ok(value: T) | Err(error: E)

  /** A float that may be one of the two infinities the accumulator starts from
      (`float('Inf')` and `float('-Inf')`). */
  datatype Extended = NegInf | Finite(v: real) | PosInf

  predicate Le(a: Extended, b: Extended)
  {
    a.NegInf? || b.PosInf? || (a.Finite? && b.Finite? && a.v <= b.v)
  }

  /** Python's `min` on two floats. */
  function MinE(a: Extended, b: Extended): (r: Extended)
    ensures Le(r, a) && Le(r, b)
    ensures r == a || r == b
  {
    if Le(a, b) then a else b
  }

  /** Python's `max` on two floats. */
  function MaxE(a: Extended, b: Extended): (r: Extended)
    ensures Le(a, r) && Le(b, r)
    ensures r == a || r == b
  {
    if Le(a, b) then b else a
  }

  lemma LeTransitive(a: Extended, b: Extended, c: Extended)
    requires Le(a, b) && Le(b, c)
    ensures Le(a, c)
  {
  }

  /** `np.min` of an array; +Inf for an empty one (never reached by the callers, which
      only take the minimum of non-empty arrays). */
  function MinOf(xs: seq<real>): (r: Extended)
    ensures forall i :: 0 <= i < |xs| ==> Le(r, Finite(xs[i]))
    ensures xs == [] <==> r.PosInf?
    ensures xs != [] <==> r.Finite?
    ensures r.Finite? ==> exists i :: 0 <= i < |xs| && xs[i] == r.v
  {
    if xs == [] then PosInf
    else
      var rest := MinOf(xs[1..]);
      assert forall i :: 1 <= i < |xs| ==> xs[i] == xs[1..][i - 1];
      MinE(Finite(xs[0]), rest)
  }

  /** `np.max` of an array; -Inf for an empty one. */
  function MaxOf(xs: seq<real>): (r: Extended)
    ensures forall i :: 0 <= i < |xs| ==> Le(Finite(xs[i]), r)
    ensures xs == [] <==> r.NegInf?
    ensures xs != [] <==> r.Finite?
    ensures r.Finite? ==> exists i :: 0 <= i < |xs| && xs[i] == r.v
  {
    if xs == [] then NegInf
    else
      var rest := MaxOf(xs[1..]);
      assert forall i :: 1 <= i < |xs| ==> xs[i] == xs[1..][i - 1];
      MaxE(Finite(xs[0]), rest)
  }

  function Max(a: int, b: int): int { if a < b then b else a }

  function Min(a: int, b: int): int { if a < b then a else b }

  /** `math.ceil` / `np.ceil` on a real. */
  function Ceil(x: real): (r: int)
    ensures x <= r as real < x + 1.0
  {
    -((-x).Floor)
  }

  /** Python's slice `s[lo:hi]`: negative bounds count from the end, and both bounds
      are clipped to the sequence. */
  function SliceIndex(i: int, n: nat): (r: nat)
    ensures r <= n
    ensures 0 <= i <= n ==> r == i
    ensures -(n as int) <= i < 0 ==> r as int == i + n as int
  {
    if i < 0 then Max(i + n, 0) else Min(i, n)
  }

  function PySlice<T>(s: seq<T>, lo: int, hi: int): (r: seq<T>)
    ensures |r| <= |s|
    ensures var a, b := SliceIndex(lo, |s|), SliceIndex(hi, |s|);
            if a < b then r == s[a..b] else r == []
  {
    var a, b := SliceIndex(lo, |s|), SliceIndex(hi, |s|);
    if a < b then s[a..b] else []
  }

  /** The reversed sequence. */
  function Reverse<T>(s: seq<T>): (r: seq<T>)
    ensures |r| == |s|
  {
    if s == [] then [] else Reverse(s[1..]) + [s[0]]
  }

  lemma {:induction false} ReverseAt<T>(s: seq<T>, k: nat)
    requires k < |s|
    ensures Reverse(s)[k] == s[|s| - 1 - k]
  {
    if k < |s| - 1 {
      ReverseAt(s[1..], k);
    }
  }

  lemma {:induction false} ReverseAppend<T>(s: seq<T>, x: T)
    ensures Reverse(s + [x]) == [x] + Reverse(s)
  {
    var l, r := Reverse(s + [x]), [x] + Reverse(s);
    forall k | 0 <= k < |l| ensures l[k] == r[k] {
      ReverseAt(s + [x], k);
      if k > 0 {
        ReverseAt(s, k - 1);
      }
    }
  }

  /** A numpy 2-D array: every row has the width of the first. */
  predicate Rectangular<T>(g: seq<seq<T>>)
  {
    forall i :: 0 <= i < |g| ==> |g[i]| == |g[0]|
  }

  /** The number of columns of a 2-D array (0 for an array with no rows, as
      `np.array([]).T` iterates over nothing). */
  function Width<T>(g: seq<seq<T>>): nat
  {
    if g == [] then 0 else |g[0]|
  }

  /** `g[:, c]`, the c-th column of a 2-D array. */
  function Column<T>(g: seq<seq<T>>, c: nat): (col: seq<T>)
    requires forall i :: 0 <= i < |g| ==> c < |g[i]|
    ensures |col| == |g|
    ensures forall i :: 0 <= i < |g| ==> col[i] == g[i][c]
  {
    seq(|g|, i requires 0 <= i < |g| => g[i][c])
  }
}
