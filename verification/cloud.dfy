/** The point cloud (`Coords`) and the helpers over it: the minimum and
    maximum of one axis, and the shift that moves the cloud so that every
    coordinate is non-negative. */
module Cloud {
  import opened CNum

  /** Three parallel coordinate vectors; index k of each describes point k. */
  datatype Coords = Coords(x: seq<real>, y: seq<real>, z: seq<real>)

  /** What every loop over a cloud relies on: at least one point (the axis
      extrema dereference the first element), and `y` and `z` at least as
      long as `x`, whose length bounds the loops. */
  predicate Valid(c: Coords)
  {
    |c.x| > 0 && |c.y| >= |c.x| && |c.z| >= |c.x|
  }

  /** `min`: the smallest element of a non-empty vector. */
  function Min(v: seq<real>): (m: real)
    requires |v| > 0
    ensures m in v
    ensures forall k :: 0 <= k < |v| ==> m <= v[k]
  {
    if |v| == 1 then v[0]
    else
      var rest := Min(v[1..]);
      if v[0] <= rest then v[0] else rest
  }

  /** `max`: the largest element of a non-empty vector. */
  function Max(v: seq<real>): (m: real)
    requires |v| > 0
    ensures m in v
    ensures forall k :: 0 <= k < |v| ==> v[k] <= m
  {
    if |v| == 1 then v[0]
    else
      var rest := Max(v[1..]);
      if v[0] >= rest then v[0] else rest
  }

  /** An element that belongs to `v` and is below every element is its minimum. */
  lemma MinUnique(v: seq<real>, m: real)
    requires m in v && forall k :: 0 <= k < |v| ==> m <= v[k]
    ensures Min(v) == m
  {
    var i :| 0 <= i < |v| && v[i] == m;
    var j :| 0 <= j < |v| && v[j] == Min(v);
  }

  /** An element that belongs to `v` and is above every element is its maximum. */
  lemma MaxUnique(v: seq<real>, m: real)
    requires m in v && forall k :: 0 <= k < |v| ==> v[k] <= m
    ensures Max(v) == m
  {
    var i :| 0 <= i < |v| && v[i] == m;
    var j :| 0 <= j < |v| && v[j] == Max(v);
  }

  /** Some axis of the cloud has maximum 0, so the scale divides by zero. */
  predicate Degenerate(c: Coords)
    requires Valid(c)
  {
    Max(c.x) == 0.0 || Max(c.y) == 0.0 || Max(c.z) == 0.0
  }

  /** `s` is `c` with the first |c.x| entries of every axis lowered by that
      axis's minimum, and everything else as it was. */
  predicate IsShiftOf(c: Coords, s: Coords)
    requires Valid(c)
  {
    && |s.x| == |c.x| && |s.y| == |c.y| && |s.z| == |c.z|
    && (forall k :: 0 <= k < |c.x| ==>
          s.x[k] == c.x[k] - Min(c.x) && s.y[k] == c.y[k] - Min(c.y) && s.z[k] == c.z[k] - Min(c.z))
    && (forall k :: |c.x| <= k < |c.y| ==> s.y[k] == c.y[k])
    && (forall k :: |c.x| <= k < |c.z| ==> s.z[k] == c.z[k])
  }

  /** `shift_data`: subtracts each axis's minimum from the first |x| entries
      of that axis, so that the cloud starts at the origin.  The minima are
      taken over whole vectors before anything is changed. */
  method ShiftData(c: Coords) returns (s: Coords)
    requires Valid(c)
    ensures IsShiftOf(c, s)
    // every shifted coordinate is non-negative, and each axis touches 0
    ensures forall k :: 0 <= k < |c.x| ==> 0.0 <= s.x[k] && 0.0 <= s.y[k] && 0.0 <= s.z[k]
    ensures Valid(s) && Min(s.x) == 0.0
    ensures |c.y| == |c.x| ==> Min(s.y) == 0.0
    ensures |c.z| == |c.x| ==> Min(s.z) == 0.0
  {
    var x := ShiftAxis(c.x, Min(c.x), |c.x|);
    var y := ShiftAxis(c.y, Min(c.y), |c.x|);
    var z := ShiftAxis(c.z, Min(c.z), |c.x|);
    s := Coords(x, y, z);
    ShiftedAxis(c.x, x, Min(c.x), |c.x|);
    ShiftedAxis(c.y, y, Min(c.y), |c.x|);
    ShiftedAxis(c.z, z, Min(c.z), |c.x|);
  }

  /** The shift keeps the cloud's shape: differences between points are
      unchanged on every axis. */
  lemma ShiftKeepsShape(c: Coords, s: Coords)
    requires Valid(c) && IsShiftOf(c, s)
    ensures forall a, b :: 0 <= a < |c.x| && 0 <= b < |c.x| ==>
              s.x[a] - s.x[b] == c.x[a] - c.x[b] && s.y[a] - s.y[b] == c.y[a] - c.y[b]
              && s.z[a] - s.z[b] == c.z[a] - c.z[b]
  {
  }

  /** A cloud that already starts at the origin is left as it is. */
  lemma ShiftAtOrigin(c: Coords, s: Coords)
    requires Valid(c) && IsShiftOf(c, s)
    requires Min(c.x) == 0.0 && Min(c.y) == 0.0 && Min(c.z) == 0.0
    ensures s == c
  {
    assert s.x == c.x && s.y == c.y && s.z == c.z;
  }

  /** The loop body of `shift_data` for one axis: subtract `m` from the
      first `n` entries of `v`. */
  method ShiftAxis(v: seq<real>, m: real, n: nat) returns (w: seq<real>)
    requires n <= |v|
    ensures |w| == |v|
    ensures forall k :: 0 <= k < n ==> w[k] == v[k] - m
    ensures forall k :: n <= k < |v| ==> w[k] == v[k]
  {
    w := v;
    var i := 0;
    while i < n
      invariant 0 <= i <= n && |w| == |v|
      invariant forall k :: 0 <= k < i ==> w[k] == v[k] - m
      invariant forall k :: i <= k < |v| ==> w[k] == v[k]
    {
      w := w[i := w[i] - m];
      i := i + 1;
    }
  }

  /** One axis after the shift of its first `n` entries by its minimum. */
  lemma ShiftedAxis(v: seq<real>, w: seq<real>, m: real, n: nat)
    requires 0 < n <= |v| && m == Min(v) && |w| == |v|
    requires forall k :: 0 <= k < n ==> w[k] == v[k] - m
    requires forall k :: n <= k < |v| ==> w[k] == v[k]
    ensures forall k :: 0 <= k < n ==> 0.0 <= w[k]
    ensures n == |v| ==> Min(w) == 0.0
  {
    if n == |v| { ShiftedMinIsZero(v, w, m); }
  }

  /** Subtracting a vector's minimum from all of it leaves minimum 0. */
  lemma ShiftedMinIsZero(v: seq<real>, w: seq<real>, m: real)
    requires |v| > 0 && m == Min(v) && |w| == |v|
    requires forall k :: 0 <= k < |v| ==> w[k] == v[k] - m
    ensures Min(w) == 0.0
  {
    var i :| 0 <= i < |v| && v[i] == m;
    MinUnique(w, 0.0);
  }

  /** The ratio `v * n / max` of a coordinate in `[0, max]` lies in `[0, n]`
      and reaches `n` exactly at the maximum: the scaling both rasterisers
      use to map a coordinate to a grid index. */
  lemma ScaleBounds(v: real, n: int, max: real)
    requires 0.0 <= v <= max && 0.0 < max && 0 <= n
    ensures 0.0 <= v * n as real / max <= n as real
    ensures (v * n as real / max == n as real) <==> (v == max || n == 0)
  {
    DivUnit(v, max);
    var t := v / max;
    assert v * n as real / max == t * n as real;
    if n > 0 {
      MulLe(0.0, t, n as real);
      MulLe(t, 1.0, n as real);
      if t < 1.0 { MulLt(t, 1.0, n as real); }
    }
  }
}
