/** `compute_hillshade`: the shading of one raster cell from its eight
    neighbours, following the ArcGIS "How Hillshade works" recipe.  The
    trigonometric functions are not computed here: they are supplied as a
    `Trig` record, and the facts the proofs need about them are collected
    in `Lawful`. */
module Hillshade {
  import opened CNum

  /** The library functions `cos`, `sin`, `atan`, `sqrt` and `atan2`. */
  datatype Trig = Trig(
    cos: real -> real,
    sin: real -> real,
    atan: real -> real,
    sqrt: real -> real,
    atan2: (real, real) -> real)

  /** What the shading relies on: the Pythagorean identity, the range of
      `atan2`, and the values at 0 of the other functions. */
  ghost predicate Lawful(t: Trig)
  {
    && (forall x :: t.cos(x) * t.cos(x) + t.sin(x) * t.sin(x) == 1.0)
    && (forall y, x :: -Pi < t.atan2(y, x) <= Pi)
    && t.sqrt(0.0) == 0.0 && t.atan(0.0) == 0.0
    && t.cos(0.0) == 1.0 && t.sin(0.0) == 0.0
  }

  /** The eight neighbours of a cell, row by row:
        a b c
        d . f
        g h i
      The centre value is not used. */
  datatype Window = Window(a: real, b: real, c: real, d: real, f: real, g: real, h: real, i: real)

  /** The ground size of a cell, fixed in the source. */
  const CellSize: int := 30

  /** The window lifted by `k`: every neighbour `k` higher. */
  function Lift(w: Window, k: real): Window
  {
    Window(w.a + k, w.b + k, w.c + k, w.d + k, w.f + k, w.g + k, w.h + k, w.i + k)
  }

  predicate Flat(w: Window)
  {
    w.b == w.a && w.c == w.a && w.d == w.a && w.f == w.a && w.g == w.a && w.h == w.a && w.i == w.a
  }

  /** The illumination direction turned from a compass bearing (clockwise
      from north) into a mathematical angle (counter-clockwise from east),
      by `360 - azim + 90` and one subtraction of 360 when that reaches 360. */
  function AzimuthMath(azim: real): (r: real)
    ensures r == 450.0 - azim || r == 90.0 - azim
    ensures -270.0 < azim <= 450.0 ==> 0.0 <= r < 360.0
  {
    var m := 360.0 - azim + 90.0;
    if m >= 360.0 then m - 360.0 else m
  }

  /** Within one turn, the mathematical angle and the compass bearing add up
      to a quarter turn, modulo a full turn. */
  lemma AzimuthMathQuarterTurn(azim: real)
    requires 0.0 <= azim <= 360.0
    ensures AzimuthMath(azim) == if azim <= 90.0 then 90.0 - azim else 450.0 - azim
  {
  }

  /** Horn's (Sobel) derivatives of the window in the x and y directions,
      over `8 * cellSize`.  The x derivative is never negative when the
      right column stands at least as high as the left one, neighbour by
      neighbour, and never positive in the mirrored case; likewise the y
      derivative for the bottom row against the top row. */
  function Gradient(w: Window): (r: (real, real))
    ensures w.c >= w.a && w.f >= w.d && w.i >= w.g ==> r.0 >= 0.0
    ensures w.c <= w.a && w.f <= w.d && w.i <= w.g ==> r.0 <= 0.0
    ensures w.g >= w.a && w.h >= w.b && w.i >= w.c ==> r.1 >= 0.0
    ensures w.g <= w.a && w.h <= w.b && w.i <= w.c ==> r.1 <= 0.0
  {
    var dzdx := ((w.c + 2.0 * w.f + w.i) - (w.a + 2.0 * w.d + w.g)) / (8 * CellSize) as real;
    var dzdy := ((w.g + 2.0 * w.h + w.i) - (w.a + 2.0 * w.b + w.c)) / (8 * CellSize) as real;
    (dzdx, dzdy)
  }

  /** A flat window has no slope in either direction. */
  lemma FlatGradient(w: Window)
    requires Flat(w)
    ensures Gradient(w) == (0.0, 0.0)
  {
  }

  /** Lifting the whole window leaves both derivatives unchanged. */
  lemma LiftGradient(w: Window, k: real)
    ensures Gradient(Lift(w, k)) == Gradient(w)
  {
  }

  /** The direction the slope faces.  With a non-zero x derivative it is
      `atan2(dzdy, -dzdx)`, moved into [0, 2 pi) when negative; otherwise
      pi/2 for a positive y derivative, 2 pi - pi/2 for a negative one,
      and the initial 0 when both vanish. */
  function Aspect(t: Trig, dzdx: real, dzdy: real): (r: real)
    ensures dzdx != 0.0 ==> r == t.atan2(dzdy, -dzdx) || r == 2.0 * Pi + t.atan2(dzdy, -dzdx)
    ensures dzdx == 0.0 ==> (r == 0.0 <==> dzdy == 0.0)
    ensures Lawful(t) ==> 0.0 <= r < 2.0 * Pi
  {
    if dzdx != 0.0 then
      var r := t.atan2(dzdy, -dzdx);
      if r < 0.0 then 2.0 * Pi + r else r
    else if dzdy > 0.0 then Pi / 2.0
    else if dzdy < 0.0 then 2.0 * Pi - Pi / 2.0
    else 0.0
  }

  /** The slope angle: `atan(1 * sqrt(dzdx^2 + dzdy^2))`. */
  function Slope(t: Trig, dzdx: real, dzdy: real): real
  {
    t.atan(1.0 * t.sqrt(dzdx * dzdx + dzdy * dzdy))
  }

  /** The unscaled illumination
      `cos(zenith) cos(slope) + sin(zenith) sin(slope) cos(azimuth - aspect)`. */
  function Illumination(t: Trig, zenith: real, slope: real, azimuth: real, aspect: real): real
  {
    t.cos(zenith) * t.cos(slope) + t.sin(zenith) * t.sin(slope) * t.cos(azimuth - aspect)
  }

  /** `compute_hillshade`: the illumination of the cell for a light source
      at compass bearing `azim` and altitude `alt` (degrees), times 255 and
      converted to `int`.  With lawful trigonometry it lies in
      [-255, 255]: negative values are cells facing away from the light. */
  function ComputeHillshade(t: Trig, w: Window, azim: real, alt: real): (hs: int)
    ensures Lawful(t) ==> -255 <= hs <= 255
  {
    var zenith := (90.0 - alt) * Pi / 180.0;
    var azimuth := AzimuthMath(azim) * Pi / 180.0;
    var (dzdx, dzdy) := Gradient(w);
    var slope, aspect := Slope(t, dzdx, dzdy), Aspect(t, dzdx, dzdy);
    IlluminationBounds(t, zenith, slope, azimuth - aspect);
    ScaledBounds(Illumination(t, zenith, slope, azimuth, aspect));
    Trunc(255.0 * Illumination(t, zenith, slope, azimuth, aspect))
  }

  /** A fraction in [-1, 1] times 255 truncates into [-255, 255]. */
  lemma ScaledBounds(x: real)
    ensures -1.0 <= x <= 1.0 ==> -255 <= Trunc(255.0 * x) <= 255
  {
    if -1.0 <= x <= 1.0 {
      TruncMonotone(-255.0, 255.0 * x);
      TruncMonotone(255.0 * x, 255.0);
      TruncOfInt(255);
      TruncOfInt(-255);
    }
  }

  /** The illumination is a cosine of an angle between two unit vectors, so
      with lawful trigonometry it lies in [-1, 1]. */
  lemma IlluminationBounds(t: Trig, zenith: real, slope: real, q: real)
    ensures var x := t.cos(zenith) * t.cos(slope) + t.sin(zenith) * t.sin(slope) * t.cos(q);
            Lawful(t) ==> -1.0 <= x <= 1.0
  {
    if Lawful(t) {
      assert t.cos(q) * t.cos(q) + t.sin(q) * t.sin(q) == 1.0;
      UnitBound(t.cos(q), t.sin(q));
      DotBound(t.cos(zenith), t.sin(zenith), t.cos(slope), t.sin(slope), t.cos(q));
    }
  }

  /** `cz cs + sz ss cq` for unit vectors (cz, sz), (cs, ss) and `cq` in
      [-1, 1] lies in [-1, 1]. */
  lemma DotBound(cz: real, sz: real, cs: real, ss: real, cq: real)
    requires cz * cz + sz * sz == 1.0 && cs * cs + ss * ss == 1.0 && -1.0 <= cq <= 1.0
    ensures -1.0 <= cz * cs + sz * ss * cq <= 1.0
  {
    AbsDot(cz, sz, cs, ss);
    var u, p := cz * cs, sz * ss;
    Attenuate(p, cq);
    LinearBound(u, p * cq, Abs(u), Abs(p));
  }

  lemma LinearBound(u: real, w: real, a: real, b: real)
    requires -a <= u <= a && -b <= w <= b && a + b <= 1.0
    ensures -1.0 <= u + w <= 1.0
  {
  }

  /** The dot product of the absolute values of two unit vectors is at most 1. */
  lemma AbsDot(cz: real, sz: real, cs: real, ss: real)
    requires cz * cz + sz * sz == 1.0 && cs * cs + ss * ss == 1.0
    ensures Abs(cz * cs) + Abs(sz * ss) <= 1.0
  {
    AbsSquare(cz);
    AbsSquare(sz);
    AbsSquare(cs);
    AbsSquare(ss);
    UnitDot(Abs(cz), Abs(sz), Abs(cs), Abs(ss));
    AbsProduct(cz, cs);
    AbsProduct(sz, ss);
  }

  lemma AbsSquare(x: real)
    ensures Abs(x) * Abs(x) == x * x
  {
    if x < 0.0 {
      assert (-x) * (-x) == x * x;
    }
  }

  /** A component of a unit vector lies in [-1, 1]. */
  lemma UnitBound(c: real, s: real)
    requires c * c + s * s == 1.0
    ensures -1.0 <= c <= 1.0
  {
    Square(s);
    assert (1.0 - c) * (1.0 + c) == s * s;
  }

  lemma Square(x: real)
    ensures 0.0 <= x * x
  {
    if x > 0.0 {
      MulLe(0.0, x, x);
    } else if x < 0.0 {
      MulLe(0.0, -x, -x);
    }
  }

  /** Multiplying by a factor in [-1, 1] cannot move a product away from 0. */
  lemma Attenuate(p: real, q: real)
    requires -1.0 <= q <= 1.0
    ensures -Abs(p) <= p * q <= Abs(p)
  {
    if p > 0.0 {
      MulLe(q, 1.0, p);
      MulLe(-1.0, q, p);
      assert -p <= q * p <= p;
    } else if p < 0.0 {
      MulLe(q, 1.0, -p);
      MulLe(-1.0, q, -p);
      assert p <= q * (-p) <= -p;
    }
  }

  lemma AbsProduct(a: real, b: real)
    ensures Abs(a * b) == Abs(a) * Abs(b)
  {
    if a < 0.0 && b < 0.0 {
      assert a * b == (-a) * (-b);
    }
  }

  /** Cauchy-Schwarz for two unit vectors in the plane: their dot product
      is at most 1, since 2 - 2 (a c + b d) is their squared distance. */
  lemma UnitDot(a: real, b: real, c: real, d: real)
    requires a * a + b * b == 1.0 && c * c + d * d == 1.0
    ensures a * c + b * d <= 1.0
  {
    Square(a - c);
    Square(b - d);
    assert (a - c) * (a - c) + (b - d) * (b - d) == 2.0 - 2.0 * (a * c + b * d);
  }

  /** On a flat window the slope, the aspect and with them the azimuth drop
      out: the cell is lit by `255 * cos(zenith)` alone. */
  lemma FlatHillshade(t: Trig, w: Window, azim: real, alt: real)
    requires Lawful(t) && Flat(w)
    ensures ComputeHillshade(t, w, azim, alt) == Trunc(255.0 * t.cos((90.0 - alt) * Pi / 180.0))
  {
    FlatGradient(w);
    assert Aspect(t, 0.0, 0.0) == 0.0;
    assert Slope(t, 0.0, 0.0) == 0.0;
  }

  /** The hillshade depends on the differences between neighbours only:
      lifting the whole window changes nothing. */
  lemma LiftHillshade(t: Trig, w: Window, k: real, azim: real, alt: real)
    ensures ComputeHillshade(t, Lift(w, k), azim, alt) == ComputeHillshade(t, w, azim, alt)
  {
    LiftGradient(w, k);
  }
}
