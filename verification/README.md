# DEM rasteriser — a Dafny model

The program reads a point cloud of terrain altitudes (a digital elevation
model: parallel `x`, `y`, `z` vectors) and draws it two ways:

- **write_2_PGM** scales every point onto a grid by cross-multiplication and
  stores its altitude as a grey level from 0 to 255. It then prints the grid
  as a plain-text Portable Grey Map ("P2").
- **write_2_PPM** gives every point a colour from a red–yellow–green–cyan–blue
  altitude ramp, converted to HSV. It lights that colour with a hillshade
  computed from the point's eight neighbours in an altitude matrix, converts it
  back to RGB and stores it in a pixel image. The image is then saved as a
  binary Portable Pixmap ("P6").

The model covers the helpers these two drawers use:

- the axis extrema `min` and `max`;
- the shift `shift_data`, which moves the cloud to the origin;
- `init_matrix`;
- the colour functions `altitude_2_rgb`, `rgb_2_hsv`, `hsv_2_rgb` and `set_V`;
- `compute_hillshade`;
- the PPM object's constructor, `create_image` and `save`.

Modules follow the source files:

| module | file | contents |
|---|---|---|
| `Common` | `common.dfy` | options, results, faults, the last-write view of a point loop |
| `CNum` | `cnum.dfy` | C numeric conversions: truncation toward zero, `fmod`, `abs`, the store into `unsigned char` |
| `Cloud` | `cloud.dfy` | `Coords`, `min`, `max`, `shift_data` |
| `Grid` | `grid.dfy` | `init_matrix` and cell updates |
| `Color` | `color.dfy` | `altitude_2_rgb`, `rgb_2_hsv`, `hsv_2_rgb`, `set_V` |
| `Hillshade` | `hillshade.dfy` | `compute_hillshade` |
| `Tokens`, `Decimal` | `tokens.dfy`, `decimal.dfy` | how a reader splits a Netpbm text into words; how a stream prints an integer |
| `Pgm` | `pgm.dfy` | `write_2_PGM` |
| `Ppm` | `ppm.dfy` | the PPM object, `write_2_PPM`, `save` |

Conventions:

- **Numbers.**
  - `float` and `double` are modelled as exact reals.
  - A conversion to `int` truncates toward zero (`CNum.Trunc`); `floor` is the real floor.
  - A store into an `unsigned char` keeps the value modulo 256 (`CNum.ToUChar`).
- **Trigonometry.**
  - `cos`, `sin`, `atan`, `atan2` and `sqrt` are fields of a `Trig` record passed as a parameter.
  - The ghost predicate `Lawful` states the facts the proofs rely on: cos² + sin² = 1, and the range of `atan2`.
- **Undefined behaviour.**
  - An access outside a vector or array is undefined behaviour in the program. Here it is an `OutOfBounds` fault naming the point and the cell.
  - An axis whose maximum is 0 makes the scale divide by zero. Here it is a `DegenerateExtent` fault.
- **Files.** Whether the output file opens is the parameter `canOpen`. The bytes or text that would be written are part of the result.

## Model

| member | source | states |
|---|---|---|
| Cloud.Min | src/toolbox.cpp:81-84 | the result is an element of the vector and no element is smaller |
| Cloud.Max | src/toolbox.cpp:92-95 | the result is an element of the vector and no element is larger |
| Cloud.MaxUnique | src/toolbox.cpp:92-95 | any element that bounds all others from above is the maximum, so the maximum is determined by the vector's contents |
| Cloud.ShiftData | src/toolbox.cpp:147-158 | each axis's first \|x\| entries are lowered by that axis's minimum and later entries are kept; every shifted coordinate is non-negative; each shifted axis has minimum 0 |
| Cloud.ShiftKeepsShape | src/toolbox.cpp:147-158 | the shift is a translation: differences between any two points are unchanged on every axis |
| Cloud.ShiftAtOrigin | src/toolbox.cpp:147-158 | a cloud already at the origin is left unchanged; since shifting puts the minimum of each axis as long as x at 0, shifting twice equals shifting once when the y and z axes have as many entries as x |
| Cloud.ScaleBounds | src/PGM.cpp:42-43 | cross-multiplying a coordinate in [0, max] onto n cells gives a value in [0, n], equal to n exactly at the maximum |
| Grid.InitMatrix | src/toolbox.cpp:266-279 | the matrix has height + 1 rows of width entries, all zero; a negative bound gives no rows or columns |
| Grid.Update | src/PPM.cpp:128 | writing one cell changes that cell only and keeps every row's length |
| Color.Ramp | src/toolbox.cpp:104-139 | every channel is in 0..255 and one channel is 255; the result is white exactly when the value lies outside [0, 318.75); 0 gives red and [255, 318.75) gives blue |
| Color.RampMatchesBands | src/toolbox.cpp:107-137 | the ramp agrees with an independent definition by the five bands [0, 63.75), [63.75, 127.5), … as linear blends |
| Color.RgbToHsv | src/toolbox.cpp:167-212 | V is the brightest channel scaled to 100; for bytes H is in [0, 360), S and V are in [0, 100], and S is 0 exactly when the three channels are equal (grey) |
| Color.Hue | src/toolbox.cpp:180-200 | the hue lies in [0, 360) and is 0 for a grey |
| Color.SaturationBounds | src/toolbox.cpp:202-206 | the saturation lies in [0, 100] and is 0 exactly when the largest and smallest channel agree |
| Color.HsvToRgb | src/toolbox.cpp:221-256 | the conversion succeeds exactly when H is in [0, 360] and S and V are in [0, 100]; the output channels are in 0..255; the brightest is the truncation of V·255/100 and the darkest of (V − S·V/100)·255/100; a zero saturation gives a grey |
| Color.ChromaSplit | src/toolbox.cpp:229-233 | the chroma C and offset m are non-negative and C + m = V/100; zero saturation gives zero chroma |
| Color.HexconeBounds | src/toolbox.cpp:235-252 | each of the six sectors yields channels between m and C + m, with maximum C + m and minimum m |
| Color.HueWraps | src/toolbox.cpp:225-252 | H = 360 is accepted and gives the same colour as H = 0 |
| Color.PureRed | src/toolbox.cpp:221-256 | HSV (0, 100, 100) converts to RGB (255, 0, 0) |
| Color.Black | src/toolbox.cpp:221-256 | HSV (0, 0, 0) converts to RGB (0, 0, 0) |
| Color.GreyRoundTrip | src/toolbox.cpp:167-256 | a grey (k, k, k) converts to HSV (0, 0, k·100/255) and back to (k, k, k) |
| Color.RgbHsvRoundTrip | src/toolbox.cpp:167-256 | every colour with channels in 0..255 converts to HSV and back to itself, so the hue, saturation and value computed for it are the ones that reproduce it |
| Color.HexconeRecovers | src/toolbox.cpp:180-252 | for channels that are not all equal, the six-sector formula applied to their own hue, spread and minimum gives the channels back |
| Color.SetV | src/toolbox.cpp:288-295 | H and S are untouched; V is at most 100, at least 60 for a non-negative hillshade, and equals 100 exactly when the hillshade is at least 102 |
| Color.SetVMonotone | src/toolbox.cpp:288-295 | a brighter hillshade never gives a smaller V |
| Hillshade.AzimuthMath | src/toolbox.cpp:318-319 | the mathematical azimuth is 450 − azim or 90 − azim, and lies in [0, 360) for any bearing in (−270, 450] |
| Hillshade.AzimuthMathQuarterTurn | src/toolbox.cpp:318-319 | for a compass bearing in [0, 360], the azimuth is 90 − azim up to 90 degrees and 450 − azim beyond |
| Hillshade.Gradient | src/toolbox.cpp:322-323 | the x derivative is non-negative when the right column is at least as high as the left, neighbour by neighbour, and non-positive in the mirrored case; the same for the y derivative with the bottom and top rows |
| Hillshade.FlatGradient | src/toolbox.cpp:322-323 | a window of equal altitudes has zero gradient |
| Hillshade.LiftGradient | src/toolbox.cpp:322-323 | raising all eight neighbours by the same amount leaves the gradient unchanged |
| Hillshade.Aspect | src/toolbox.cpp:325-339 | with a non-zero x gradient the aspect is atan2(dzdy, −dzdx), moved up by 2π when negative; with zero x gradient it is 0 exactly when the y gradient is 0; with lawful trigonometry it lies in [0, 2π) |
| Hillshade.ComputeHillshade | src/toolbox.cpp:314-342 | with lawful trigonometry the hillshade lies in [−255, 255] |
| Hillshade.FlatHillshade | src/toolbox.cpp:314-342 | a flat window is lit by the sun's elevation alone: 255·cos(zenith), truncated |
| Hillshade.LiftHillshade | src/toolbox.cpp:314-342 | the hillshade depends on relative altitudes only: raising the whole window changes nothing |
| Pgm.Plot | src/PGM.cpp:40-47 | the loop succeeds exactly when every point's cell is in the matrix; otherwise it stops at the first point whose cell is outside; on success every cell holds the value of the last point written to it, or 0 |
| Pgm.Rasterize | src/PGM.cpp:33-47 | a zero axis maximum is a fault; otherwise the matrix is built exactly when every point fits, and each cell holds the floored altitude level of the last point that landed on it |
| Pgm.LevelBounds | src/PGM.cpp:44 | a grey level of an altitude in [0, max_z] lies in [0, 255] and is 255 exactly at the maximum altitude |
| Pgm.PgmCell | src/PGM.cpp:42-43 | a point of a shifted cloud lands in rows 0..width and columns 0..height, on the last of them exactly at the axis maximum |
| Pgm.WritePgm | src/PGM.cpp:23-62 | nothing is written exactly when the file cannot be opened; otherwise the run faults exactly when an axis maximum is 0 or some point misses the matrix; a written file reads back as "P2", width, height, 255 and the floored levels of the first height rows |
| Pgm.FlatTwoByTwo | src/PGM.cpp:48-58 | the 2 by 2 map of a flat cloud at altitude 0 is the text "P2\n2 2\n255 \n0 0 \n0 0 \n" |
| Pgm.LevelsAt | src/PGM.cpp:51-58 | the pixel printed for row i and column j is at position i·cols + j of the body |
| Pgm.PgmText | src/PGM.cpp:48-58 | the words of the printed file are "P2", the width, the height, 255, then the floored level of each printed cell in row-major order |
| Pgm.PgmTextRoundTrip | src/PGM.cpp:48-58 | reading the printed text gives back the width, height, maximum 255 and every printed level in row-major order |
| Pgm.ParseDecWords | src/PGM.cpp:55 | reading back a sequence of printed integers gives the integers |
| Pgm.SquareGridMisses | src/PGM.cpp:42-43 | on a square grid the point with the largest y lands one column past the end of its row, so no non-degenerate cloud fits |
| Pgm.ClampedCell | src/PGM.cpp:42-43 | the clamped cell is inside the printed rows and columns, and equals the unclamped cell whenever that one is |
| Pgm.WritePgmClamped | src/PGM.cpp:23-62 | with cells clamped, only a zero axis maximum faults; every point is written to a printed cell; the file reads back as the header and the levels |
| Decimal.DecRoundTrip | src/PGM.cpp:49-50 | an integer printed by the stream reads back as the same integer |
| Ppm.CreateImage | src/PPM.cpp:79-93 | the image has height rows of width pixels, all white |
| Ppm.NewPixmap | src/PPM.cpp:33-37 | a new pixmap has the requested size, version "P6" and an all-white image of that shape |
| Ppm.Light | src/PPM.cpp:142-143 | the light is never negative and equals the hillshade whenever that is non-negative |
| Ppm.LitHsv | src/PPM.cpp:130-144 | the lit colour keeps the ramp colour's hue and saturation, is a valid HSV triple, and has V in [60, 100], reaching 100 exactly when the light is at least 102 |
| Ppm.ShadeConverts | src/PPM.cpp:146-150 | the lit colour is always accepted by the conversion, so the pixel is that conversion; its brightest channel is V·255/100, truncated |
| Ppm.Shade | src/PPM.cpp:130-150 | every painted pixel has its brightest channel in 153..255, and 255 exactly when the light is at least 102 |
| Ppm.RampNeverWhite | src/PPM.cpp:130 | the altitude of a shifted cloud scales into [0, 255] and never takes the ramp's white default |
| Ppm.ShadeOffRampIsGrey | src/PPM.cpp:130-150 | an altitude outside the ramp's bands gives a grey pixel |
| Ppm.PpmRow | src/PPM.cpp:121-123 | the row is the cross-multiplied x minus 1, kept within [1, width − 1]; inside that range it is unchanged |
| Ppm.PpmCol | src/PPM.cpp:124-126 | the column is the cross-multiplied y, kept within [1, height], where height is the image's height; inside that range it is unchanged |
| Ppm.PpmCell | src/PPM.cpp:121-126 | for width ≥ 2 the row lies in 1..width − 1, and for height ≥ 1 the column lies in 1..height; a point whose cross-multiplied row less one and column already lie strictly inside keeps them |
| Ppm.RecordedStep | src/PPM.cpp:128 | after the write of point k, the altitude matrix holds the last value written to each cell among points 0..k |
| Ppm.PaintedStep | src/PPM.cpp:146-150 | after point k, each pixel holds the shade of the last point among 0..k that landed on it, or its original colour |
| Ppm.ReadWindowAt | src/PPM.cpp:134-141 | the eight neighbours read for point k are the altitudes the matrix holds just after point k's own write |
| Ppm.AccessMatches | src/PPM.cpp:128-150 | the write, the eight reads and the pixel write of a point all stay in bounds exactly when its cell is at least one cell from the matrix border and lies in the image |
| Ppm.FirstMiss | src/PPM.cpp:115-151 | finds no point exactly when every point's accesses stay in bounds, and otherwise the first point whose accesses do not |
| Ppm.PaintAll | src/PPM.cpp:115-151 | when every point stays in bounds, the image is the original painted point by point, each pixel holding the shade of the last point on it |
| Ppm.Paint | src/PPM.cpp:115-151 | the loop completes exactly when every point stays in bounds; otherwise it faults at the first point that does not, naming its cell; on success the image is painted as above |
| Ppm.Latin1 | src/PPM.cpp:61 | each character of an 8-bit string is written as the byte of the same value |
| Ppm.RowBytes | src/PPM.cpp:66-67 | a row of n pixels is written as 3n bytes, pixel j at bytes 3j, 3j+1 and 3j+2 in the order r, g, b |
| Ppm.Raster | src/PPM.cpp:65-67 | the raster of rows by cols pixels is 3·rows·cols bytes long |
| Ppm.RasterAt | src/PPM.cpp:65-67 | channel c of pixel (i, j) is at byte 3·(i·cols + j) + c of the raster |
| Ppm.Save | src/PPM.cpp:58-72 | nothing is written exactly when the file cannot be opened; otherwise the file starts with the header bytes |
| Ppm.RasterRoundTrip | src/PPM.cpp:65-67 | decoding the raster as height rows of width 3-byte pixels gives back the image |
| Ppm.SaveRoundTrip | src/PPM.cpp:58-72 | the header reads as the version, width, height and 255; the file is the header plus 3·height·width bytes; the bytes after the header decode to the image |
| Ppm.WritePpm | src/PPM.cpp:103-154 | a zero axis maximum faults; otherwise the run faults exactly when some point's accesses leave the grids, at the first such point; otherwise only the version ("P6") and the image change, the image is painted point by point, and the saved file is the "P6" header followed by the image's bytes |
| Ppm.CrossAtMax | src/PPM.cpp:124 | the point with the largest coordinate cross-multiplies to exactly n |
| Ppm.SquarePpmFaults | src/PPM.cpp:124-141 | with the square size the program requests, the point with the largest y always reads a column past the end of its matrix row, so every non-degenerate cloud faults |
| Ppm.Interiorize | src/PPM.cpp:121-126 | the clamped cell keeps every access in bounds, and a cell that already does is unchanged |
| Ppm.BorderedCell | src/PPM.cpp:121-126 | a point's bordered cell keeps all its accesses in bounds, and equals the program's cell whenever that one already does |
| Ppm.WritePpmBordered | src/PPM.cpp:103-154 | with the bordered clamp only a zero axis maximum faults; otherwise the image is painted point by point and saved |

## Left out

- `wgs84_to_L93` and `main`'s file reading are not modelled. They are coordinate-system conversion and input parsing, outside the rasterisers. `main` is used only for the sizes it passes: `width` for both dimensions (src/main.cpp:33-35).
- `printProgress`, console messages and `" Done !"` are left out; they are output only.
- The PPM default constructor, the destructor and `delete_image` are left out. Memory release has no observable effect on the files.
- Floating-point rounding is not modelled: `float` and `double` are exact reals. The model does not follow how the eight neighbour altitudes, and `s`, `v` and `C` in `hsv_2_rgb`, are narrowed to `float`.
- The values of `cos`, `sin`, `atan`, `atan2` and `sqrt` are not modelled. They are parameters constrained only by `Hillshade.Lawful`.
- Hillshade.ComputeHillshade: the range is proved only under `Lawful`, because the trigonometric values are parameters.
- Stream formatting is modelled for integers only. A grey level is a whole number. It prints as an integer below one million; a larger one would print in scientific notation, which is not modelled.
- A division by a zero axis maximum gives infinities or NaN in the program. The model stops with `DegenerateExtent` instead of following those values.
- An empty cloud, or `y`/`z` shorter than `x`, is excluded by `Cloud.Valid`. `min` and `max` dereference an element that does not exist there.
- Ppm.CreateImage: sizes are `nat`. A negative size makes `new[]` throw, and that is not modelled.
- Ppm.Save: the version string must consist of 8-bit characters. The stream writes chars, and wider code points are outside the model.
- Ppm.Paint checks all points' accesses before painting, whereas the program faults in the middle of the loop. Any out-of-bounds access is undefined behaviour, so both describe the same set of well-defined runs.
- `abs` in `hsv_2_rgb` is taken as the floating-point overload. `toolbox.h` includes `<math.h>`, which supplies it for `double`.
- The source comment in `altitude_2_rgb` describes the ramp as running from blue to red. The code gives red at 0 and blue at the top. The model follows the code.

## Findings

| source | as written | input that shows it | evidently intended | confidence | as-written member | corrected member |
|---|---|---|---|---|---|---|
| src/PGM.cpp:42-43 | the column `floor(y * height / max_y)` reaches `height` for the point with the largest y, while the matrix has `width` columns and the program passes `width` as both sizes | any non-degenerate cloud drawn with width = height = n: the point with y = max_y writes `data_matrix[i][n]` in a row of n entries | cells clamped into the printed rows and columns | not executed | Pgm.SquareGridMisses | Pgm.WritePgmClamped |
| src/PPM.cpp:124-126, src/PPM.cpp:134-141 | the column is clamped to at most `height` (the image height), but the neighbour reads use `j + 1` in a matrix of `width` columns | any non-degenerate cloud with the square sizes the program uses: the point with y = max_y gets j = n, and `data_matrix[i][j+1]` reads column n + 1 of a row of n entries | cells kept one cell inside the matrix and the image, so that all nine accesses are in bounds | not executed | Ppm.SquarePpmFaults | Ppm.WritePpmBordered |
