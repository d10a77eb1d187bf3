/** The PPM class: an image of RGB bytes with its size and version string,
    the white canvas `create_image` allocates, the shaded colour raster
    `write_2_PPM` paints from the cloud, and the byte layout `save` writes. */
module Ppm {
  import opened Common
  import opened CNum
  import opened Cloud
  import opened Grid
  import opened Color
  import opened Hillshade
  import opened Decimal
  import opened Tokens

  /** `struct RGB`: three unsigned chars. */
  datatype Rgb = Rgb(r: byte, g: byte, b: byte)

  const WhitePixel := Rgb(255, 255, 255)

  /** A PPM object: the `height` and `width` members, the `version` string
      and the `image` rows. */
  datatype Pixmap = Pixmap(height: int, width: int, version: string, image: seq<seq<Rgb>>)

  /** `image` holds `height` rows of `width` pixels. */
  predicate WellFormed(p: Pixmap)
  {
    0 <= p.height && 0 <= p.width && Shape(p.image, p.height, p.width)
  }

  // ---------------------------------------------------------------------
  // Construction

  /** `create_image`: `height` rows of `width` white pixels. */
  method CreateImage(height: nat, width: nat) returns (image: seq<seq<Rgb>>)
    ensures Shape(image, height, width)
    ensures forall i, j :: 0 <= i < height && 0 <= j < width ==> image[i][j] == WhitePixel
  {
    image := [];
    var i := 0;
    while i < height
      invariant 0 <= i <= height && |image| == i
      invariant forall q :: 0 <= q < i ==> |image[q]| == width
      invariant forall q, j :: 0 <= q < i && 0 <= j < width ==> image[q][j] == WhitePixel
    {
      var row: seq<Rgb> := [];
      var j := 0;
      while j < width
        invariant 0 <= j <= width && |row| == j
        invariant forall q :: 0 <= q < j ==> row[q] == WhitePixel
      {
        row := row + [WhitePixel];
        j := j + 1;
      }
      image := image + [row];
      i := i + 1;
    }
  }

  /** `PPM(height, width)`: the sizes are stored, the version is the
      default "P6", and the canvas is white. */
  method NewPixmap(height: nat, width: nat) returns (p: Pixmap)
    ensures WellFormed(p) && p.height == height && p.width == width && p.version == "P6"
    ensures forall i, j :: 0 <= i < height && 0 <= j < width ==> p.image[i][j] == WhitePixel
  {
    var image := CreateImage(height, width);
    p := Pixmap(height, width, "P6", image);
  }

  // ---------------------------------------------------------------------
  // The colour of one point

  /** The light source `write_2_PPM` uses: compass bearing 315 degrees
      (north-west), 45 degrees above the horizon. */
  const Azimuth: real := 315.0
  const Altitude: real := 45.0

  /** The hillshade of a window, with negative values (cells facing away
      from the light) raised to 0. */
  function Light(t: Trig, w: Window): (hs: int)
    ensures 0 <= hs
    ensures ComputeHillshade(t, w, Azimuth, Altitude) >= 0 ==> hs == ComputeHillshade(t, w, Azimuth, Altitude)
  {
    var hs := ComputeHillshade(t, w, Azimuth, Altitude);
    if hs < 0 then 0 else hs
  }

  /** The colour the ramp gives the altitude `z`, in HSV. */
  function RampHsv(z: real, maxZ: real): Hsv
    requires maxZ != 0.0
  {
    RgbToHsv(Ramp(z * (255.0 / maxZ)))
  }

  /** The ramp colour with its value replaced by the light. */
  function LitHsv(t: Trig, w: Window, z: real, maxZ: real): (hsv: Hsv)
    requires maxZ != 0.0
    ensures HsvInRange(hsv)
    ensures hsv.h == RampHsv(z, maxZ).h && hsv.s == RampHsv(z, maxZ).s
    ensures 60.0 <= hsv.v <= 100.0
    ensures hsv.v == 100.0 <==> 102 <= Light(t, w)
  {
    SetV(Light(t, w) as real, RampHsv(z, maxZ))
  }

  /** The pixel of a point: the ramp colour of its scaled altitude, lit by
      the hillshade of its window, converted back to RGB; a rejected
      conversion would leave the zero triple.  Shading never darkens a
      pixel below 60% of full brightness, and a pixel reaches full
      brightness exactly when its hillshade is at least 102. */
  function Shade(t: Trig, w: Window, z: real, maxZ: real): (px: Rgb)
    requires maxZ != 0.0
    ensures 153 <= Brightest(px) <= 255
    ensures Brightest(px) == 255 <==> 102 <= Light(t, w)
  {
    ValueScale(LitHsv(t, w, z, maxZ).v);
    var rgb := match HsvToRgb(LitHsv(t, w, z, maxZ))
               case Some(c) => c
               case None => IntRgb(0, 0, 0);
    Rgb(ToUChar(rgb.r), ToUChar(rgb.g), ToUChar(rgb.b))
  }

  function Brightest(px: Rgb): int
  {
    MaxChannel(IntRgb(px.r as int, px.g as int, px.b as int))
  }

  /** The lit colour is always accepted by the conversion, so the pixel is
      its conversion exactly; its brightest channel is the value V scaled
      to 255. */
  lemma ShadeConverts(t: Trig, w: Window, z: real, maxZ: real)
    requires maxZ != 0.0
    ensures HsvToRgb(LitHsv(t, w, z, maxZ)).Some?
    ensures var c := HsvToRgb(LitHsv(t, w, z, maxZ)).value;
            Shade(t, w, z, maxZ) == Rgb(c.r as byte, c.g as byte, c.b as byte)
    ensures Brightest(Shade(t, w, z, maxZ)) == Trunc(LitHsv(t, w, z, maxZ).v / 100.0 * 255.0)
  {
  }

  /** A value V in [60, 100] percent scales to a channel in [153, 255],
      reaching 255 only at 100. */
  lemma ValueScale(v: real)
    requires 60.0 <= v <= 100.0
    ensures 153 <= Trunc(v / 100.0 * 255.0) <= 255
    ensures Trunc(v / 100.0 * 255.0) == 255 <==> v == 100.0
  {
    TruncMonotone(153.0, v / 100.0 * 255.0);
    TruncMonotone(v / 100.0 * 255.0, 255.0);
    TruncOfInt(153);
    TruncOfInt(255);
  }

  /** For a shifted cloud the ramp input lies in [0, 255], so the ramp
      always picks a colour band and never leaves its white default. */
  lemma RampNeverWhite(z: real, maxZ: real)
    requires 0.0 <= z <= maxZ && 0.0 < maxZ
    ensures 0.0 <= z * (255.0 / maxZ) <= 255.0
    ensures Ramp(z * (255.0 / maxZ)) != White
  {
    ScaleBounds(z, 255, maxZ);
    assert z * (255.0 / maxZ) == z * 255 as real / maxZ;
  }

  /** An altitude outside the ramp's range (white in the ramp) is shaded
      grey: all three channels equal. */
  lemma ShadeOffRampIsGrey(t: Trig, w: Window, z: real, maxZ: real)
    requires maxZ != 0.0
    requires z * (255.0 / maxZ) < 0.0 || 318.75 <= z * (255.0 / maxZ)
    ensures var px := Shade(t, w, z, maxZ); px.r == px.g == px.b
  {
    ShadeConverts(t, w, z, maxZ);
  }

  // ---------------------------------------------------------------------
  // The point loop of write_2_PPM

  /** `int(v * n / max)`: the cross-multiplication, truncated toward zero. */
  function Cross(v: real, n: int, max: real): int
    requires max != 0.0
  {
    Trunc(v * n as real / max)
  }

  /** The row of a point: one less than its cross-multiplied x, raised to 1
      when not positive, then lowered to `width - 1` when it reaches
      `width` (the parameter). */
  function PpmRow(x: real, width: int, maxX: real): (i: int)
    requires maxX != 0.0
    ensures 2 <= width ==> 1 <= i <= width - 1
    ensures width < 2 ==> i == width - 1
    ensures 1 <= Cross(x, width, maxX) - 1 < width ==> i == Cross(x, width, maxX) - 1
  {
    var i := Cross(x, width, maxX) - 1;
    var i' := if i <= 0 then 1 else i;
    if i' >= width then width - 1 else i'
  }

  /** The column of a point: its cross-multiplied y (scaled by the
      `heigth` parameter), raised to 1 when not positive, then lowered to
      the `height` member when it reaches it. */
  function PpmCol(y: real, heigth: int, maxY: real, height: int): (j: int)
    requires maxY != 0.0
    ensures 1 <= height ==> 1 <= j <= height
    ensures height < 1 ==> j == height
    ensures 1 <= Cross(y, heigth, maxY) < height ==> j == Cross(y, heigth, maxY)
  {
    var j := Cross(y, heigth, maxY);
    var j' := if j <= 0 then 1 else j;
    if j' >= height then height else j'
  }

  /** The cell of point `k`.  For width at least 2 its row lies in
      [1, width - 1], and for height at least 1 its column lies in
      [1, height]; a point whose
      cross-multiplied row (less one) and column already lie there keeps
      them. */
  function PpmCell(c: Coords, k: nat, width: int, heigth: int, height: int): (r: Cell)
    requires Valid(c) && k < |c.x| && !Degenerate(c)
    ensures 2 <= width ==> 1 <= r.0 <= width - 1
    ensures 1 <= height ==> 1 <= r.1 <= height
    ensures var i, j := Cross(c.x[k], width, Max(c.x)) - 1, Cross(c.y[k], heigth, Max(c.y));
            1 <= i < width && 1 <= j < height ==> r == (i, j)
  {
    (PpmRow(c.x[k], width, Max(c.x)), PpmCol(c.y[k], heigth, Max(c.y), height))
  }

  function PpmCells(c: Coords, width: int, heigth: int, height: int): (r: seq<Cell>)
    requires Valid(c) && !Degenerate(c)
    ensures |r| == |c.x|
    ensures forall k :: 0 <= k < |c.x| ==> r[k] == PpmCell(c, k, width, heigth, height)
  {
    seq(|c.x|, k requires 0 <= k < |c.x| => PpmCell(c, k, width, heigth, height))
  }

  /** Every access point `cell` makes stays inside its grid: the write and
      the eight neighbour reads in the altitude matrix built by
      `init_matrix(height, width)`, and the pixel write in `image`. */
  predicate Reaches(cell: Cell, height: int, width: int, image: seq<seq<Rgb>>)
  {
    && 1 <= cell.0 && cell.0 + 1 < Dim(height + 1)
    && 1 <= cell.1 && cell.1 + 1 < Dim(width)
    && InGrid(image, cell)
  }

  /** The altitude matrix after the first `n` writes: the last altitude
      written to the cell, or 0. */
  function DataAt(cells: seq<Cell>, zs: seq<real>, n: nat, cell: Cell): real
    requires n <= |cells| == |zs|
  {
    LastWrite(cells[..n], zs[..n], cell, 0.0)
  }

  /** The neighbours point `k` reads, just after its own altitude is
      written. */
  function WindowAt(cells: seq<Cell>, zs: seq<real>, k: nat): Window
    requires k < |cells| == |zs|
  {
    var (i, j) := cells[k];
    Window(
      DataAt(cells, zs, k + 1, (i - 1, j - 1)), DataAt(cells, zs, k + 1, (i - 1, j)),
      DataAt(cells, zs, k + 1, (i - 1, j + 1)), DataAt(cells, zs, k + 1, (i, j - 1)),
      DataAt(cells, zs, k + 1, (i, j + 1)), DataAt(cells, zs, k + 1, (i + 1, j - 1)),
      DataAt(cells, zs, k + 1, (i + 1, j)), DataAt(cells, zs, k + 1, (i + 1, j + 1)))
  }

  /** A pixel after the first `n` points: as it was if none of them landed
      there, else the shade of the last one that did. */
  function PaintedAt(image0: seq<seq<Rgb>>, cells: seq<Cell>, zs: seq<real>, n: nat, maxZ: real, t: Trig, cell: Cell): Rgb
    requires n <= |cells| == |zs| && maxZ != 0.0 && InGrid(image0, cell)
  {
    match LastIndexOf(cells[..n], cell)
    case None => image0[cell.0][cell.1]
    case Some(q) => Shade(t, WindowAt(cells, zs, q), zs[q], maxZ)
  }

  /** The altitude matrix holds the first `n` writes. */
  predicate Recorded(dm: Matrix<real>, cells: seq<Cell>, zs: seq<real>, n: nat)
    requires n <= |cells| == |zs|
  {
    forall a, b :: 0 <= a < |dm| && 0 <= b < |dm[a]| ==> dm[a][b] == DataAt(cells, zs, n, (a, b))
  }

  /** `image` is `image0` painted with the first `n` points. */
  predicate Painted(image0: seq<seq<Rgb>>, image: seq<seq<Rgb>>, cells: seq<Cell>, zs: seq<real>, n: nat, maxZ: real, t: Trig)
    requires n <= |cells| == |zs| && maxZ != 0.0
  {
    && |image| == |image0|
    && (forall a :: 0 <= a < |image0| ==> |image[a]| == |image0[a]|)
    && forall a, b :: 0 <= a < |image0| && 0 <= b < |image0[a]| ==>
         image[a][b] == PaintedAt(image0, cells, zs, n, maxZ, t, (a, b))
  }

  lemma RecordedStep(dm: Matrix<real>, cells: seq<Cell>, zs: seq<real>, k: nat)
    requires k < |cells| == |zs| && Recorded(dm, cells, zs, k) && InGrid(dm, cells[k])
    ensures Recorded(Update(dm, cells[k], zs[k]), cells, zs, k + 1)
  {
    var dm' := Update(dm, cells[k], zs[k]);
    assert cells[..k + 1] == cells[..k] + [cells[k]];
    assert zs[..k + 1] == zs[..k] + [zs[k]];
    forall a, b | 0 <= a < |dm'| && 0 <= b < |dm'[a]|
      ensures dm'[a][b] == DataAt(cells, zs, k + 1, (a, b))
    {
      LastWriteSnoc(cells[..k], zs[..k], cells[k], zs[k], (a, b), 0.0);
    }
  }

  lemma PaintedStep(image0: seq<seq<Rgb>>, image: seq<seq<Rgb>>, cells: seq<Cell>, zs: seq<real>, k: nat, maxZ: real, t: Trig)
    requires k < |cells| == |zs| && maxZ != 0.0
    requires Painted(image0, image, cells, zs, k, maxZ, t) && InGrid(image, cells[k])
    ensures Painted(image0, Update(image, cells[k], Shade(t, WindowAt(cells, zs, k), zs[k], maxZ)), cells, zs, k + 1, maxZ, t)
  {
    var px := Shade(t, WindowAt(cells, zs, k), zs[k], maxZ);
    var image' := Update(image, cells[k], px);
    forall a, b | 0 <= a < |image0| && 0 <= b < |image0[a]|
      ensures image'[a][b] == PaintedAt(image0, cells, zs, k + 1, maxZ, t, (a, b))
    {
      PaintedAtSnoc(image0, cells, zs, k, maxZ, t, (a, b));
    }
  }

  /** Adding point `k` changes only the pixel of its cell, to its shade. */
  lemma PaintedAtSnoc(image0: seq<seq<Rgb>>, cells: seq<Cell>, zs: seq<real>, k: nat, maxZ: real, t: Trig, cell: Cell)
    requires k < |cells| == |zs| && maxZ != 0.0 && InGrid(image0, cell)
    ensures PaintedAt(image0, cells, zs, k + 1, maxZ, t, cell)
         == if cells[k] == cell then Shade(t, WindowAt(cells, zs, k), zs[k], maxZ)
            else PaintedAt(image0, cells, zs, k, maxZ, t, cell)
  {
    assert cells[..k + 1] == cells[..k] + [cells[k]];
    LastIndexOfSnoc(cells[..k], cells[k], cell);
  }

  /** The cell and its eight neighbours lie inside `dm`. */
  predicate Interior(dm: Matrix<real>, cell: Cell)
  {
    1 <= cell.0 && cell.0 + 1 < |dm| && 1 <= cell.1
    && cell.1 + 1 < |dm[cell.0 - 1]| && cell.1 + 1 < |dm[cell.0]| && cell.1 + 1 < |dm[cell.0 + 1]|
  }

  /** The eight neighbour reads of the point loop, around the point's cell. */
  function ReadWindow(dm: Matrix<real>, cell: Cell): Window
    requires Interior(dm, cell)
  {
    var (i, j) := cell;
    Window(dm[i - 1][j - 1], dm[i - 1][j], dm[i - 1][j + 1], dm[i][j - 1],
           dm[i][j + 1], dm[i + 1][j - 1], dm[i + 1][j], dm[i + 1][j + 1])
  }

  lemma ReadWindowAt(dm: Matrix<real>, cells: seq<Cell>, zs: seq<real>, k: nat)
    requires k < |cells| == |zs| && Recorded(dm, cells, zs, k + 1) && Interior(dm, cells[k])
    ensures ReadWindow(dm, cells[k]) == WindowAt(cells, zs, k)
  {
  }

  /** One iteration of the point loop: write the altitude,
      read the neighbours, paint the shade.  Both matrices keep their shape
      and stay in step with the reference definitions. */
  method PaintPoint(dm: Matrix<real>, image0: seq<seq<Rgb>>, image: seq<seq<Rgb>>, cells: seq<Cell>, zs: seq<real>, k: nat, maxZ: real, t: Trig)
    returns (dm': Matrix<real>, image': seq<seq<Rgb>>)
    requires k < |cells| == |zs| && maxZ != 0.0
    requires Recorded(dm, cells, zs, k) && Painted(image0, image, cells, zs, k, maxZ, t)
    requires Interior(dm, cells[k]) && InGrid(image, cells[k])
    ensures |dm'| == |dm| && forall a :: 0 <= a < |dm| ==> |dm'[a]| == |dm[a]|
    ensures Recorded(dm', cells, zs, k + 1)
    ensures Painted(image0, image', cells, zs, k + 1, maxZ, t)
  {
    RecordedStep(dm, cells, zs, k);
    dm' := Update(dm, cells[k], zs[k]);
    ReadWindowAt(dm', cells, zs, k);
    PaintedStep(image0, image, cells, zs, k, maxZ, t);
    image' := Update(image, cells[k], Shade(t, ReadWindow(dm', cells[k]), zs[k], maxZ));
  }

  /** Before any point, the image is the original and the matrix all zeros. */
  lemma PaintStart(dm: Matrix<real>, image0: seq<seq<Rgb>>, cells: seq<Cell>, zs: seq<real>, maxZ: real, t: Trig)
    requires |cells| == |zs| && maxZ != 0.0
    requires forall a, b :: 0 <= a < |dm| && 0 <= b < |dm[a]| ==> dm[a][b] == 0.0
    ensures Recorded(dm, cells, zs, 0)
    ensures Painted(image0, image0, cells, zs, 0, maxZ, t)
  {
    assert cells[..0] == [];
  }

  /** Inside the loop, the in-bounds test on the current matrices is the
      one on the altitude grid's size and the original image. */
  lemma AccessMatches(dm: Matrix<real>, image0: seq<seq<Rgb>>, image: seq<seq<Rgb>>, cell: Cell, height: int, width: int)
    requires Shape(dm, Dim(height + 1), Dim(width))
    requires |image| == |image0| && forall a :: 0 <= a < |image0| ==> |image[a]| == |image0[a]|
    ensures (Interior(dm, cell) && InGrid(image, cell)) <==> Reaches(cell, height, width, image0)
  {
  }

  /** The first point with an access outside a grid, if any. */
  method FirstMiss(cells: seq<Cell>, height: int, width: int, image0: seq<seq<Rgb>>) returns (miss: Option<nat>)
    ensures miss.None? <==> forall k :: 0 <= k < |cells| ==> Reaches(cells[k], height, width, image0)
    ensures miss.Some? ==> miss.value < |cells| && !Reaches(cells[miss.value], height, width, image0)
                           && forall q :: 0 <= q < miss.value ==> Reaches(cells[q], height, width, image0)
  {
    var k := 0;
    while k < |cells|
      invariant 0 <= k <= |cells|
      invariant forall q :: 0 <= q < k ==> Reaches(cells[q], height, width, image0)
    {
      if !Reaches(cells[k], height, width, image0) {
        return Some(k);
      }
      k := k + 1;
    }
    return None;
  }

  /** The point loop when every access stays inside its grid. */
  method PaintAll(image0: seq<seq<Rgb>>, height: int, width: int, cells: seq<Cell>, zs: seq<real>, maxZ: real, t: Trig)
    returns (image: seq<seq<Rgb>>)
    requires |cells| == |zs| && maxZ != 0.0
    requires forall k :: 0 <= k < |cells| ==> Reaches(cells[k], height, width, image0)
    ensures Painted(image0, image, cells, zs, |cells|, maxZ, t)
  {
    var dm := InitMatrix(height, width);
    image := image0;
    PaintStart(dm, image0, cells, zs, maxZ, t);
    var k := 0;
    while k < |cells|
      invariant 0 <= k <= |cells|
      invariant Shape(dm, Dim(height + 1), Dim(width))
      invariant Recorded(dm, cells, zs, k)
      invariant Painted(image0, image, cells, zs, k, maxZ, t)
    {
      AccessMatches(dm, image0, image, cells[k], height, width);
      dm, image := PaintPoint(dm, image0, image, cells, zs, k, maxZ, t);
      k := k + 1;
    }
  }

  /** The point loop on precomputed cells and altitudes: each point writes
      its altitude into the zero matrix `init_matrix(height, width)`, reads
      its eight neighbours, and paints its shade into the image.  A point
      with an access outside a grid is undefined behaviour in the source;
      here the first one is reported as a fault. */
  method Paint(image0: seq<seq<Rgb>>, height: int, width: int, cells: seq<Cell>, zs: seq<real>, maxZ: real, t: Trig)
    returns (r: Result<seq<seq<Rgb>>>)
    requires |cells| == |zs| && maxZ != 0.0
    ensures r.Ok? <==> forall k :: 0 <= k < |cells| ==> Reaches(cells[k], height, width, image0)
    ensures r.Err? ==> r.fault.OutOfBounds? && r.fault.point < |cells|
                       && cells[r.fault.point] == (r.fault.row, r.fault.col)
                       && !Reaches(cells[r.fault.point], height, width, image0)
                       && forall q :: 0 <= q < r.fault.point ==> Reaches(cells[q], height, width, image0)
    ensures r.Ok? ==> Painted(image0, r.value, cells, zs, |cells|, maxZ, t)
  {
    var miss := FirstMiss(cells, height, width, image0);
    if miss.Some? {
      var k := miss.value;
      return Err(OutOfBounds(k, cells[k].0, cells[k].1));
    }
    var image := PaintAll(image0, height, width, cells, zs, maxZ, t);
    return Ok(image);
  }

  // ---------------------------------------------------------------------
  // save: the byte layout of a P6 file

  /** The characters of `s` fit in a byte each. */
  predicate EightBit(s: string)
  {
    forall i :: 0 <= i < |s| ==> s[i] as int < 256
  }

  /** Each character written as its own byte. */
  function Latin1(s: string): (b: seq<byte>)
    requires EightBit(s)
    ensures |b| == |s| && forall i :: 0 <= i < |s| ==> b[i] as int == s[i] as int
  {
    seq(|s|, i requires 0 <= i < |s| => s[i] as int as byte)
  }

  lemma EightBitAppend(a: string, b: string)
    requires EightBit(a) && EightBit(b)
    ensures EightBit(a + b)
  {
  }

  lemma DecEightBit(n: int)
    ensures EightBit(Dec(n))
  {
    var s := Dec(n);
    forall i | 0 <= i < |s| ensures s[i] as int < 256 {
      if n < 0 && i > 0 {
        assert s[i] == s[1..][i - 1];
      }
    }
  }

  /** The three header lines: version, `width height`, and 255. */
  function PpmHeader(version: string, width: int, height: int): (s: string)
    ensures Closed(s)
  {
    version + "\n" + (Dec(width) + " ") + (Dec(height) + "\n") + (Dec(255) + "\n")
  }

  /** A header over an 8-bit version is 8-bit throughout. */
  lemma HeaderEightBit(version: string, width: int, height: int)
    requires EightBit(version)
    ensures EightBit(PpmHeader(version, width, height))
  {
    DecEightBit(width);
    DecEightBit(height);
    DecEightBit(255);
    EightBitAppend(version, "\n");
    EightBitAppend(Dec(width), " ");
    EightBitAppend(Dec(height), "\n");
    EightBitAppend(Dec(255), "\n");
    EightBitAppend(version + "\n", Dec(width) + " ");
    EightBitAppend(version + "\n" + (Dec(width) + " "), Dec(height) + "\n");
    EightBitAppend(version + "\n" + (Dec(width) + " ") + (Dec(height) + "\n"), Dec(255) + "\n");
  }

  /** Channel `c` of a pixel, in the order the struct lays them out. */
  function Channel(px: Rgb, c: int): byte
    requires 0 <= c < 3
  {
    if c == 0 then px.r else if c == 1 then px.g else px.b
  }

  /** The first `n` pixels of a row, three bytes each. */
  function RowBytes(row: seq<Rgb>, n: nat): (r: seq<byte>)
    requires n <= |row|
    ensures |r| == 3 * n
    ensures forall j, c :: 0 <= j < n && 0 <= c < 3 ==> r[3 * j + c] == Channel(row[j], c)
  {
    if n == 0 then [] else RowBytes(row, n - 1) + [row[n - 1].r, row[n - 1].g, row[n - 1].b]
  }

  /** The first `rows` rows of `cols` pixels each, row after row. */
  function Raster(image: seq<seq<Rgb>>, rows: nat, cols: nat): (b: seq<byte>)
    requires rows <= |image| && forall i :: 0 <= i < rows ==> cols <= |image[i]|
    ensures |b| == 3 * (rows * cols)
  {
    if rows == 0 then []
    else
      assert 3 * ((rows - 1) * cols) + 3 * cols == 3 * (rows * cols);
      Raster(image, rows - 1, cols) + RowBytes(image[rows - 1], cols)
  }

  /** The header lines as the bytes the stream writes. */
  function HeaderBytes(p: Pixmap): (b: seq<byte>)
    requires EightBit(p.version)
    ensures |b| == |PpmHeader(p.version, p.width, p.height)|
  {
    HeaderEightBit(p.version, p.width, p.height);
    Latin1(PpmHeader(p.version, p.width, p.height))
  }

  /** `save`: nothing when the file cannot be opened; otherwise the header
      then every pixel, `height` rows of `width`. */
  function Save(p: Pixmap, canOpen: bool): (file: Option<seq<byte>>)
    requires WellFormed(p) && EightBit(p.version)
    ensures file.None? <==> !canOpen
    ensures file.Some? ==> HeaderBytes(p) <= file.value
  {
    if canOpen then Some(HeaderBytes(p) + Raster(p.image, p.height, p.width)) else None
  }

  /** The raster of fewer rows is a prefix of the raster of more. */
  lemma RasterPrefix(image: seq<seq<Rgb>>, k: nat, rows: nat, cols: nat)
    requires k <= rows <= |image| && forall i :: 0 <= i < rows ==> cols <= |image[i]|
    ensures Raster(image, k, cols) <= Raster(image, rows, cols)
  {
    var n := k;
    while n < rows
      invariant k <= n <= rows && Raster(image, k, cols) <= Raster(image, n, cols)
    {
      n := n + 1;
    }
  }

  /** Channel `c` of pixel (i, j) is byte `3 * (i * cols + j) + c` of the
      raster. */
  lemma RasterAt(image: seq<seq<Rgb>>, rows: nat, cols: nat, i: nat, j: nat, c: nat)
    requires rows <= |image| && forall q :: 0 <= q < rows ==> cols <= |image[q]|
    requires i < rows && j < cols && c < 3
    ensures 3 * (i * cols + j) + c < |Raster(image, rows, cols)|
    ensures Raster(image, rows, cols)[3 * (i * cols + j) + c] == Channel(image[i][j], c)
  {
    RasterPrefix(image, i + 1, rows, cols);
    PrefixAt(Raster(image, i, cols), RowBytes(image[i], cols), Raster(image, rows, cols), 3 * (i * cols), 3 * j + c);
    assert 3 * (i * cols) + (3 * j + c) == 3 * (i * cols + j) + c;
  }

  /** Reads `rows` rows of `cols` pixels, three bytes each, row after row. */
  function DecodeRaster(bytes: seq<byte>, rows: nat, cols: nat): (image: seq<seq<Rgb>>)
    requires |bytes| == 3 * (rows * cols)
    ensures Shape(image, rows, cols)
  {
    seq(rows, i requires 0 <= i < rows =>
      seq(cols, j requires 0 <= j < cols =>
        RowMajor(i, j, rows, cols);
        DecodePixel(bytes, 3 * (i * cols + j))))
  }

  function DecodePixel(bytes: seq<byte>, o: nat): Rgb
    requires o + 3 <= |bytes|
  {
    Rgb(bytes[o], bytes[o + 1], bytes[o + 2])
  }

  /** The pixel decoded at (i, j) is the one whose bytes sit at offset
      `3 * (i * cols + j)`. */
  lemma DecodedPixel(bytes: seq<byte>, rows: nat, cols: nat, i: nat, j: nat, px: Rgb)
    requires |bytes| == 3 * (rows * cols) && i < rows && j < cols
    requires var o := 3 * (i * cols + j);
             o + 2 < |bytes| && bytes[o] == px.r && bytes[o + 1] == px.g && bytes[o + 2] == px.b
    ensures DecodeRaster(bytes, rows, cols)[i][j] == px
  {
  }

  /** Decoding the written raster gives the image back. */
  lemma RasterRoundTrip(image: seq<seq<Rgb>>, rows: nat, cols: nat)
    requires Shape(image, rows, cols)
    ensures |Raster(image, rows, cols)| == 3 * (rows * cols)
    ensures DecodeRaster(Raster(image, rows, cols), rows, cols) == image
  {
    var d := DecodeRaster(Raster(image, rows, cols), rows, cols);
    forall i | 0 <= i < rows
      ensures d[i] == image[i]
    {
      forall j | 0 <= j < cols
        ensures d[i][j] == image[i][j]
      {
        RasterAt(image, rows, cols, i, j, 0);
        RasterAt(image, rows, cols, i, j, 1);
        RasterAt(image, rows, cols, i, j, 2);
        DecodedPixel(Raster(image, rows, cols), rows, cols, i, j, image[i][j]);
      }
    }
  }

  /** A saved file reads back as its header words (the version, the size,
      255) followed by exactly `3 * height * width` bytes that decode to the
      image. */
  lemma SaveRoundTrip(p: Pixmap)
    requires WellFormed(p) && EightBit(p.version) && IsWord(p.version)
    ensures var file := Save(p, true).value;
            var n := |PpmHeader(p.version, p.width, p.height)|;
            && Words(PpmHeader(p.version, p.width, p.height)) == [p.version, Dec(p.width), Dec(p.height), Dec(255)]
            && |file| == n + 3 * (p.height * p.width)
            && DecodeRaster(file[n..], p.height, p.width) == p.image
  {
    var header := PpmHeader(p.version, p.width, p.height);
    var file := Save(p, true).value;
    WordsOfWord(p.version, '\n');
    WordsOfDec(p.width, ' ');
    WordsOfDec(p.height, '\n');
    WordsOfDec(255, '\n');
    WordsOfFour(p.version + "\n", Dec(p.width) + " ", Dec(p.height) + "\n", Dec(255) + "\n",
                p.version, Dec(p.width), Dec(p.height), Dec(255));
    RasterRoundTrip(p.image, p.height, p.width);
    assert file[|header|..] == Raster(p.image, p.height, p.width);
  }

  // ---------------------------------------------------------------------
  // write_2_PPM

  /** Every point of the cloud reaches only cells inside the grids. */
  predicate PpmFits(c: Coords, p: Pixmap, width: int, heigth: int)
    requires Valid(c) && !Degenerate(c)
  {
    forall k :: 0 <= k < |c.x| ==> Reaches(PpmCell(c, k, width, heigth, p.height), p.height, width, p.image)
  }

  datatype PpmOutcome =
    | Faulted(fault: Fault)                           // undefined behaviour in the source
    | Drawn(pixmap: Pixmap, file: Option<seq<byte>>)  // the painted object and the saved bytes, if the file opened

  /** `write_2_PPM(width, heigth, coordinates, name)` on the object `p`:
      paints every point, sets the version to "P6" and saves. */
  method WritePpm(p: Pixmap, width: int, heigth: int, c: Coords, t: Trig, canOpen: bool) returns (o: PpmOutcome)
    requires WellFormed(p) && Valid(c)
    ensures Degenerate(c) ==> o == Faulted(DegenerateExtent)
    ensures !Degenerate(c) ==> (o.Faulted? <==> !PpmFits(c, p, width, heigth))
    ensures o.Faulted? && !Degenerate(c) ==>
              && o.fault.OutOfBounds? && o.fault.point < |c.x|
              && PpmCell(c, o.fault.point, width, heigth, p.height) == (o.fault.row, o.fault.col)
              && !Reaches(PpmCell(c, o.fault.point, width, heigth, p.height), p.height, width, p.image)
              && forall q :: 0 <= q < o.fault.point ==> Reaches(PpmCell(c, q, width, heigth, p.height), p.height, width, p.image)
    ensures o.Drawn? ==> && !Degenerate(c)
                         && o.pixmap == p.(version := "P6", image := o.pixmap.image)
                         && WellFormed(o.pixmap)
                         && Painted(p.image, o.pixmap.image, PpmCells(c, width, heigth, p.height), c.z[..|c.x|], |c.x|, Max(c.z), t)
    ensures o.Drawn? ==> o.file == Save(o.pixmap, canOpen)
    ensures o.Drawn? && canOpen ==>
              var header := PpmHeader("P6", p.width, p.height);
              && Words(header) == ["P6", Dec(p.width), Dec(p.height), Dec(255)]
              && |o.file.value| == |header| + 3 * (p.height * p.width)
              && DecodeRaster(o.file.value[|header|..], p.height, p.width) == o.pixmap.image
  {
    if Degenerate(c) {
      return Faulted(DegenerateExtent);
    }
    var cells := PpmCells(c, width, heigth, p.height);
    var r := Paint(p.image, p.height, width, cells, c.z[..|c.x|], Max(c.z), t);
    if r.Err? {
      return Faulted(r.fault);
    }
    var q := p.(version := "P6", image := r.value);
    P6IsWord();
    SaveRoundTrip(q);
    return Drawn(q, Save(q, canOpen));
  }

  lemma P6IsWord()
    ensures IsWord("P6") && EightBit("P6")
  {
  }

  // ---------------------------------------------------------------------
  // The column clamp at square sizes, and its correction

  /** `int(max * n / max)` is n. */
  lemma CrossAtMax(max: real, n: int)
    requires max != 0.0
    ensures Cross(max, n, max) == n
  {
    assert max * n as real / max == n as real;
    TruncOfInt(n);
  }

  /** The column clamp lowers a column only to `height`, one past the last
      interior column of a grid `height` wide: at the square sizes the
      program uses, the point with the greatest y always lands there, so
      every drawing of a non-degenerate cloud reads outside the altitude
      matrix. */
  lemma SquarePpmFaults(c: Coords, p: Pixmap, n: int)
    requires Valid(c) && !Degenerate(c) && |c.y| == |c.x|
    requires WellFormed(p) && p.height == n
    ensures !PpmFits(c, p, n, n)
  {
    var k :| 0 <= k < |c.y| && c.y[k] == Max(c.y);
    CrossAtMax(Max(c.y), n);
    assert PpmCell(c, k, n, n, n).1 == n;
    assert !Reaches(PpmCell(c, k, n, n, n), n, n, p.image);
  }

  /** A cell pulled inside both grids: rows 1 to `height - 1`, columns 1
      to the last one whose right neighbour is in the altitude matrix and
      which is itself in the image; a cell already inside is kept. */
  function Interiorize(cell: Cell, height: int, width: int, cols: int, image: seq<seq<Rgb>>): (r: Cell)
    requires 2 <= height && 3 <= width && 2 <= cols && Shape(image, height, cols)
    ensures Reaches(r, height, width, image)
    ensures Reaches(cell, height, width, image) ==> r == cell
  {
    (Clamp(cell.0, 1, height - 1), Clamp(cell.1, 1, if width - 2 < cols - 1 then width - 2 else cols - 1))
  }

  /** The as-written cell pulled inside both grids. */
  function BorderedCell(c: Coords, k: nat, p: Pixmap, width: int, heigth: int): (r: Cell)
    requires Valid(c) && k < |c.x| && !Degenerate(c)
    requires WellFormed(p) && 2 <= p.height && 2 <= p.width && 3 <= width
    ensures Reaches(r, p.height, width, p.image)
    ensures Reaches(PpmCell(c, k, width, heigth, p.height), p.height, width, p.image)
            ==> r == PpmCell(c, k, width, heigth, p.height)
  {
    Interiorize(PpmCell(c, k, width, heigth, p.height), p.height, width, p.width, p.image)
  }

  function BorderedCells(c: Coords, p: Pixmap, width: int, heigth: int): (r: seq<Cell>)
    requires Valid(c) && !Degenerate(c)
    requires WellFormed(p) && 2 <= p.height && 2 <= p.width && 3 <= width
    ensures |r| == |c.x|
    ensures forall k :: 0 <= k < |c.x| ==> r[k] == BorderedCell(c, k, p, width, heigth)
  {
    seq(|c.x|, k requires 0 <= k < |c.x| => BorderedCell(c, k, p, width, heigth))
  }

  /** `write_2_PPM` with every cell kept inside the grids: a non-degenerate
      cloud is always drawn, and points the original maps inside are
      painted where the original paints them. */
  method WritePpmBordered(p: Pixmap, width: int, heigth: int, c: Coords, t: Trig, canOpen: bool) returns (o: PpmOutcome)
    requires WellFormed(p) && Valid(c) && 2 <= p.height && 2 <= p.width && 3 <= width
    ensures o.Faulted? <==> Degenerate(c)
    ensures o.Faulted? ==> o.fault == DegenerateExtent
    ensures o.Drawn? ==> && !Degenerate(c)
                         && o.pixmap == p.(version := "P6", image := o.pixmap.image)
                         && WellFormed(o.pixmap)
                         && Painted(p.image, o.pixmap.image, BorderedCells(c, p, width, heigth), c.z[..|c.x|], |c.x|, Max(c.z), t)
    ensures o.Drawn? ==> o.file == Save(o.pixmap, canOpen)
  {
    if Degenerate(c) {
      return Faulted(DegenerateExtent);
    }
    var cells := BorderedCells(c, p, width, heigth);
    var r := Paint(p.image, p.height, width, cells, c.z[..|c.x|], Max(c.z), t);
    var q := p.(version := "P6", image := r.value);
    P6IsWord();
    return Drawn(q, Save(q, canOpen));
  }
}
