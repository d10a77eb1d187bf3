/** `write_2_PGM`: the cloud is scaled onto a `height`+1 by `width` matrix
    of grey levels, and the first `height` rows are written as a plain-text
    Portable Grey Map ("P2").  The output file is a parameter: `canOpen`
    says whether it could be opened, and the text that would be written is
    part of the result. */
module Pgm {
  import opened Common
  import opened Cloud
  import opened Grid
  import opened Decimal
  import opened Tokens

  /** The matrix cell of point `k`, by cross-multiplication: the row is
      `floor(x * width / max_x)`, the column `floor(y * height / max_y)`.
      For a shifted cloud the row lies in [0, width] and the column in
      [0, height]; the bound is reached exactly by the points at the far
      edge of the cloud. */
  function PgmCell(c: Coords, k: nat, width: int, height: int): (r: Cell)
    requires Valid(c) && k < |c.x| && !Degenerate(c)
    ensures 0.0 <= c.x[k] && 0 <= width ==>
              0 <= r.0 <= width && (r.0 == width <==> c.x[k] == Max(c.x) || width == 0)
    ensures 0.0 <= c.y[k] && 0 <= height ==>
              0 <= r.1 <= height && (r.1 == height <==> c.y[k] == Max(c.y) || height == 0)
  {
    AxisBounds(c.x[k], width, Max(c.x));
    AxisBounds(c.y[k], height, Max(c.y));
    (Scale(c.x[k], width, Max(c.x)), Scale(c.y[k], height, Max(c.y)))
  }

  /** `floor(v * n / max)`: where `v` falls when [0, max] is stretched over n
      cells. */
  function Scale(v: real, n: int, max: real): int
    requires max != 0.0
  {
    (v * n as real / max).Floor
  }

  /** The grey level of altitude `z`: `floor(z * (255 / max_z))`, stored in
      a `double` matrix. */
  function PgmLevel(z: real, maxZ: real): real
    requires maxZ != 0.0
  {
    (z * (255.0 / maxZ)).Floor as real
  }

  function PgmCells(c: Coords, width: int, height: int): (r: seq<Cell>)
    requires Valid(c) && !Degenerate(c)
    ensures |r| == |c.x|
    ensures forall k :: 0 <= k < |c.x| ==> r[k] == PgmCell(c, k, width, height)
  {
    seq(|c.x|, k requires 0 <= k < |c.x| => PgmCell(c, k, width, height))
  }

  function PgmLevels(c: Coords): (r: seq<real>)
    requires Valid(c) && !Degenerate(c)
    ensures |r| == |c.x|
    ensures forall k :: 0 <= k < |c.x| ==> r[k] == PgmLevel(c.z[k], Max(c.z))
  {
    seq(|c.x|, k requires 0 <= k < |c.x| => PgmLevel(c.z[k], Max(c.z)))
  }

  /** The cell exists in the matrix `init_matrix(height, width)` builds. */
  predicate OnGrid(cell: Cell, width: int, height: int)
  {
    0 <= cell.0 < Dim(height + 1) && 0 <= cell.1 < Dim(width)
  }

  /** Every point of the cloud lands on the matrix. */
  predicate Fits(c: Coords, width: int, height: int)
    requires Valid(c) && !Degenerate(c)
  {
    forall k :: 0 <= k < |c.x| ==> OnGrid(PgmCell(c, k, width, height), width, height)
  }

  /** The point loop: starting from the zero matrix, write `vals[k]` into
      `cells[k]` for every k in order.  The first cell outside the matrix
      stops the loop with a fault; otherwise every cell ends up holding the
      last value written to it, or 0 if none was. */
  method Plot(cells: seq<Cell>, vals: seq<real>, width: int, height: int) returns (r: Result<Matrix<real>>)
    requires |cells| == |vals|
    ensures r.Ok? <==> forall k :: 0 <= k < |cells| ==> OnGrid(cells[k], width, height)
    ensures r.Err? ==> r.fault.OutOfBounds? && r.fault.point < |cells|
                       && cells[r.fault.point] == (r.fault.row, r.fault.col)
                       && !OnGrid(cells[r.fault.point], width, height)
                       && forall q :: 0 <= q < r.fault.point ==> OnGrid(cells[q], width, height)
    ensures r.Ok? ==> Shape(r.value, Dim(height + 1), Dim(width))
    ensures r.Ok? ==> forall i, j :: 0 <= i < |r.value| && 0 <= j < |r.value[i]| ==>
                        r.value[i][j] == LastWrite(cells, vals, (i, j), 0.0)
  {
    var m := InitMatrix(height, width);
    var k := 0;
    while k < |cells|
      invariant 0 <= k <= |cells|
      invariant Shape(m, Dim(height + 1), Dim(width))
      invariant forall q :: 0 <= q < k ==> OnGrid(cells[q], width, height)
      invariant forall i, j :: 0 <= i < |m| && 0 <= j < |m[i]| ==>
                  m[i][j] == LastWrite(cells[..k], vals[..k], (i, j), 0.0)
    {
      var cell := cells[k];
      if !(0 <= cell.0 < |m| && 0 <= cell.1 < |m[cell.0]|) {
        return Err(OutOfBounds(k, cell.0, cell.1));
      }
      var m' := Update(m, cell, vals[k]);
      assert cells[..k + 1] == cells[..k] + [cell];
      assert vals[..k + 1] == vals[..k] + [vals[k]];
      forall i, j | 0 <= i < |m'| && 0 <= j < |m'[i]|
        ensures m'[i][j] == LastWrite(cells[..k + 1], vals[..k + 1], (i, j), 0.0)
      {
        LastWriteSnoc(cells[..k], vals[..k], cell, vals[k], (i, j), 0.0);
      }
      m := m';
      k := k + 1;
    }
    assert cells[..k] == cells && vals[..k] == vals;
    return Ok(m);
  }

  /** Extents, then the point loop of `write_2_PGM`. */
  method Rasterize(c: Coords, width: int, height: int) returns (r: Result<Matrix<real>>)
    requires Valid(c)
    ensures r == Err(DegenerateExtent) <==> Degenerate(c)
    ensures !Degenerate(c) ==> (r.Ok? <==> Fits(c, width, height))
    ensures !Degenerate(c) && r.Err? ==>
              var k := r.fault.point;
              r.fault.OutOfBounds? && k < |c.x| && PgmCell(c, k, width, height) == (r.fault.row, r.fault.col)
              && !OnGrid(PgmCell(c, k, width, height), width, height)
              && forall q :: 0 <= q < k ==> OnGrid(PgmCell(c, q, width, height), width, height)
    ensures r.Ok? ==> !Degenerate(c) && Shape(r.value, Dim(height + 1), Dim(width))
    ensures r.Ok? ==> forall i, j :: 0 <= i < |r.value| && 0 <= j < |r.value[i]| ==>
                        r.value[i][j] == LastWrite(PgmCells(c, width, height), PgmLevels(c), (i, j), 0.0)
  {
    if Max(c.x) == 0.0 || Max(c.y) == 0.0 || Max(c.z) == 0.0 {
      return Err(DegenerateExtent);
    }
    r := Plot(PgmCells(c, width, height), PgmLevels(c), width, height);
  }

  /** What `write_2_PGM` does with its output file. */
  datatype PgmOutcome =
    | Unopenable                                    // the file could not be opened: nothing is written
    | Faulted(fault: Fault)                         // the point loop reaches undefined behaviour
    | Written(matrix: Matrix<real>, text: string)   // the filled matrix and the file's text

  /** `write_2_PGM`: open check, extents, point loop, then the text. */
  method WritePgm(width: int, height: int, c: Coords, canOpen: bool) returns (o: PgmOutcome)
    requires canOpen ==> Valid(c)
    ensures o.Unopenable? <==> !canOpen
    ensures canOpen ==> (o.Faulted? <==> Degenerate(c) || !Fits(c, width, height))
    ensures o.Written? ==> Valid(c) && !Degenerate(c) && Shape(o.matrix, Dim(height + 1), Dim(width))
    ensures o.Written? ==> forall i, j :: 0 <= i < |o.matrix| && 0 <= j < |o.matrix[i]| ==>
              o.matrix[i][j] == LastWrite(PgmCells(c, width, height), PgmLevels(c), (i, j), 0.0)
    ensures o.Written? ==> o.text == PgmText(o.matrix, width, height)
    ensures o.Written? ==> ParsePgm(o.text) == Some(Gray(width, height, 255, Levels(o.matrix, Dim(width), Dim(height))))
  {
    if !canOpen {
      return Unopenable;
    }
    var r := Rasterize(c, width, height);
    if r.Err? {
      return Faulted(r.fault);
    }
    PgmTextRoundTrip(r.value, width, height);
    return Written(r.value, PgmText(r.value, width, height));
  }

  /** A value in [0, n] truncates into [0, n], reaching n only from n. */
  lemma FloorBounds(v: real, n: int)
    requires 0.0 <= v <= n as real
    ensures 0 <= v.Floor <= n
    ensures v.Floor == n <==> v == n as real
  {
  }

  /** For a shifted cloud a point's grey level lies in [0, 255], and is 255
      exactly at the highest points. */
  lemma LevelBounds(z: real, maxZ: real)
    requires 0.0 <= z <= maxZ && maxZ != 0.0
    ensures 0.0 <= PgmLevel(z, maxZ) <= 255.0
    ensures PgmLevel(z, maxZ) == 255.0 <==> z == maxZ
  {
    ScaleBounds(z, 255, maxZ);
    assert z * (255.0 / maxZ) == z * 255 as real / maxZ;
    FloorBounds(z * (255.0 / maxZ), 255);
  }

  /** One coordinate of the cross-multiplication: a value in [0, max]
      lands in [0, n], on n exactly at the maximum. */
  lemma AxisBounds(v: real, n: int, max: real)
    requires max != 0.0
    ensures 0.0 <= v <= max && 0 <= n ==>
              0 <= Scale(v, n, max) <= n && (Scale(v, n, max) == n <==> v == max || n == 0)
  {
    if 0.0 <= v <= max && 0 <= n {
      ScaleBounds(v, n, max);
      FloorBounds(v * n as real / max, n);
    }
  }

  /** On a square grid, as the program requests it, the point with the
      largest y has column `n`, one past the end of its row: no cloud fits. */
  lemma SquareGridMisses(c: Coords, n: int)
    requires Valid(c) && !Degenerate(c) && |c.y| == |c.x|
    ensures !Fits(c, n, n)
  {
    var k :| 0 <= k < |c.y| && c.y[k] == Max(c.y);
    ScaleAtMax(Max(c.y), n);
    assert PgmCell(c, k, n, n).1 == n;
  }

  /** The far edge of the cloud lands on cell `n`. */
  lemma ScaleAtMax(max: real, n: int)
    requires max != 0.0
    ensures Scale(max, n, max) == n
  {
    assert max * n as real / max == n as real;
  }

  /** The same cell clamped into the rows and columns that are printed. */
  function ClampedCell(c: Coords, k: nat, width: int, height: int): (r: Cell)
    requires Valid(c) && k < |c.x| && !Degenerate(c) && 0 < width && 0 < height
    ensures 0 <= r.0 < height && 0 <= r.1 < width
    ensures var p := PgmCell(c, k, width, height);
            0 <= p.0 < height && 0 <= p.1 < width ==> r == p
  {
    var p := PgmCell(c, k, width, height);
    (Clamp(p.0, 0, height - 1), Clamp(p.1, 0, width - 1))
  }

  function ClampedCells(c: Coords, width: int, height: int): (r: seq<Cell>)
    requires Valid(c) && !Degenerate(c) && 0 < width && 0 < height
    ensures |r| == |c.x|
    ensures forall k :: 0 <= k < |c.x| ==> r[k] == ClampedCell(c, k, width, height)
  {
    seq(|c.x|, k requires 0 <= k < |c.x| => ClampedCell(c, k, width, height))
  }

  /** What the program becomes with every cell clamped into the printed
      part of the matrix: only a degenerate cloud is refused, and every
      point is written to a cell that is printed. */
  method WritePgmClamped(width: int, height: int, c: Coords, canOpen: bool) returns (o: PgmOutcome)
    requires canOpen ==> Valid(c)
    requires 0 < width && 0 < height
    ensures o.Unopenable? <==> !canOpen
    ensures canOpen ==> (o.Faulted? <==> Degenerate(c))
    ensures o.Faulted? ==> o.fault == DegenerateExtent
    ensures o.Written? ==> Valid(c) && !Degenerate(c) && Shape(o.matrix, height + 1, width)
    ensures o.Written? ==> forall i, j :: 0 <= i < |o.matrix| && 0 <= j < |o.matrix[i]| ==>
              o.matrix[i][j] == LastWrite(ClampedCells(c, width, height), PgmLevels(c), (i, j), 0.0)
    ensures o.Written? ==> o.text == PgmText(o.matrix, width, height)
    ensures o.Written? ==> ParsePgm(o.text) == Some(Gray(width, height, 255, Levels(o.matrix, width, height)))
  {
    if !canOpen {
      return Unopenable;
    }
    if Degenerate(c) {
      return Faulted(DegenerateExtent);
    }
    var r := Plot(ClampedCells(c, width, height), PgmLevels(c), width, height);
    PgmTextRoundTrip(r.value, width, height);
    return Written(r.value, PgmText(r.value, width, height));
  }

  // ---------------------------------------------------------------------
  // The text of the file

  /** The first `rows` rows of `m` hold at least `cols` entries each. */
  predicate Printable(m: Matrix<real>, cols: nat, rows: nat)
  {
    rows <= |m| && forall i :: 0 <= i < rows ==> cols <= |m[i]|
  }

  /** `ofst << v << " "` for the first `n` entries of a row.  A grey level
      is a whole number, so the stream prints it as an integer. */
  function RowText(row: seq<real>, n: nat): (s: string)
    requires n <= |row|
    ensures Closed(s)
  {
    if n == 0 then "" else RowText(row, n - 1) + (Dec(row[n - 1].Floor) + " ")
  }

  /** The first `rows` rows, each printed over `cols` entries and ended by
      a line break. */
  function BodyText(m: Matrix<real>, cols: nat, rows: nat): (s: string)
    requires Printable(m, cols, rows)
    ensures Closed(s)
  {
    if rows == 0 then "" else BodyText(m, cols, rows - 1) + (RowText(m[rows - 1], cols) + "\n")
  }

  /** The header: the magic number, the size as width then height, and the
      maximum grey value followed by a blank. */
  function HeaderText(width: int, height: int): (s: string)
    ensures Closed(s)
  {
    "P2" + "\n" + (Dec(width) + " ") + (Dec(height) + "\n") + (Dec(255) + " " + "\n")
  }

  /** The complete file: the header, then the first `height` rows of the
      matrix over `width` columns.  Its words are the four header fields
      followed by the printed levels in row-major order. */
  function PgmText(m: Matrix<real>, width: int, height: int): (s: string)
    requires Printable(m, Dim(width), Dim(height))
    ensures Words(s) == ["P2", Dec(width), Dec(height), Dec(255)] + DecWords(Levels(m, Dim(width), Dim(height)))
  {
    WordsOfHeader(width, height);
    WordsOfBody(m, Dim(width), Dim(height));
    WordsAppend(HeaderText(width, height), BodyText(m, Dim(width), Dim(height)));
    HeaderText(width, height) + BodyText(m, Dim(width), Dim(height))
  }

  /** A 2 by 2 map of a flat cloud at height 0, as the file shows it: the
      header, then the same line twice. */
  lemma FlatTwoByTwo(m: Matrix<real>, width: nat, height: nat)
    requires m == [[0.0, 0.0], [0.0, 0.0], [0.0, 0.0]] && width == 2 && height == 2
    ensures PgmText(m, width, height) == "P2\n2 2\n255 \n" + ("0 0 \n" + "0 0 \n")
  {
    FlatHeader();
    FlatBody(m);
    TextParts(m, width, height, "P2\n2 2\n255 \n", "0 0 \n" + "0 0 \n");
  }

  /** The file is its header followed by its body. */
  lemma TextParts(m: Matrix<real>, width: nat, height: nat, header: string, body: string)
    requires Printable(m, width, height)
    requires HeaderText(width, height) == header && BodyText(m, width, height) == body
    ensures PgmText(m, width, height) == header + body
  {
  }

  lemma FlatHeader()
    ensures HeaderText(2, 2) == "P2\n2 2\n255 \n"
  {
    DecSmall();
  }

  lemma FlatBody(m: Matrix<real>)
    requires m == [[0.0, 0.0], [0.0, 0.0], [0.0, 0.0]]
    ensures BodyText(m, 2, 2) == "0 0 \n" + "0 0 \n"
  {
    ZeroLine();
    TwoRows(m, 2, "0 0 \n");
  }

  /** Two rows printing as the same line give that line twice. */
  lemma TwoRows(m: Matrix<real>, cols: nat, line: string)
    requires Printable(m, cols, 2)
    requires RowText(m[0], cols) + "\n" == line && RowText(m[1], cols) + "\n" == line
    ensures BodyText(m, cols, 2) == line + line
  {
    assert BodyText(m, cols, 1) == line;
  }

  lemma DecSmall()
    ensures Dec(0) == "0" && Dec(2) == "2" && Dec(255) == "255"
  {
    assert Digits(25) == "25";
  }

  lemma ZeroRow()
    ensures RowText([0.0, 0.0], 2) == "0 0 "
  {
    assert Dec(0) == "0";
  }

  lemma ZeroLine()
    ensures RowText([0.0, 0.0], 2) + "\n" == "0 0 \n"
  {
    ZeroRow();
  }

  /** The integers of the first `n` entries of a row, in order. */
  function RowLevels(row: seq<real>, n: nat): (r: seq<int>)
    requires n <= |row|
    ensures |r| == n && forall j :: 0 <= j < n ==> r[j] == row[j].Floor
  {
    if n == 0 then [] else RowLevels(row, n - 1) + [row[n - 1].Floor]
  }

  /** The integers of the first `rows` rows over `cols` columns, row by row. */
  function Levels(m: Matrix<real>, cols: nat, rows: nat): (r: seq<int>)
    requires Printable(m, cols, rows)
  {
    if rows == 0 then [] else Levels(m, cols, rows - 1) + RowLevels(m[rows - 1], cols)
  }

  lemma LevelsLength(m: Matrix<real>, cols: nat, rows: nat)
    requires Printable(m, cols, rows)
    ensures |Levels(m, cols, rows)| == rows * cols
  {
    var k := 0;
    while k < rows
      invariant k <= rows && |Levels(m, cols, k)| == k * cols
    {
      assert (k + 1) * cols == k * cols + cols;
      k := k + 1;
    }
  }

  /** The levels of fewer rows are a prefix of the levels of more. */
  lemma LevelsPrefix(m: Matrix<real>, cols: nat, k: nat, rows: nat)
    requires Printable(m, cols, rows) && k <= rows
    ensures Levels(m, cols, k) <= Levels(m, cols, rows)
  {
    var n := k;
    while n < rows
      invariant k <= n <= rows && Levels(m, cols, k) <= Levels(m, cols, n)
    {
      n := n + 1;
    }
  }

  /** Entry (i, j) sits at position i * cols + j of the row-major levels. */
  lemma LevelsAt(m: Matrix<real>, cols: nat, rows: nat, i: nat, j: nat)
    requires Printable(m, cols, rows) && i < rows && j < cols
    ensures i * cols + j < |Levels(m, cols, rows)|
    ensures Levels(m, cols, rows)[i * cols + j] == m[i][j].Floor
  {
    LevelsLength(m, cols, i);
    LevelsPrefix(m, cols, i + 1, rows);
    PrefixAt(Levels(m, cols, i), RowLevels(m[i], cols), Levels(m, cols, rows), i * cols, j);
  }

  function DecWords(xs: seq<int>): (ws: seq<string>)
    ensures |ws| == |xs| && forall k :: 0 <= k < |xs| ==> ws[k] == Dec(xs[k])
  {
    seq(|xs|, k requires 0 <= k < |xs| => Dec(xs[k]))
  }

  /** Reads every word as an integer; `None` as soon as one is not. */
  function ParseInts(ws: seq<string>): (r: Option<seq<int>>)
    ensures r.Some? ==> |r.value| == |ws|
  {
    if |ws| == 0 then Some([])
    else
      match (ParseInt(ws[0]), ParseInts(ws[1..]))
      case (Some(v), Some(vs)) => Some([v] + vs)
      case _ => None
  }

  lemma {:induction false} ParseDecWords(xs: seq<int>)
    ensures ParseInts(DecWords(xs)) == Some(xs)
  {
    if |xs| > 0 {
      DecRoundTrip(xs[0]);
      assert DecWords(xs)[1..] == DecWords(xs[1..]);
      ParseDecWords(xs[1..]);
      assert [xs[0]] + xs[1..] == xs;
    }
  }

  /** A grey map as a reader sees it. */
  datatype Gray = Gray(width: int, height: int, maxval: int, pixels: seq<int>)

  /** Reads a plain grey map: "P2", width, height and maximum value, then
      exactly width * height integers, all separated by blanks or line
      breaks. */
  function ParsePgm(s: string): (r: Option<Gray>)
    ensures r.Some? ==> |r.value.pixels| == Dim(r.value.width) * Dim(r.value.height)
  {
    var ws := Words(s);
    if |ws| < 4 || ws[0] != "P2" then None
    else
      match (ParseInt(ws[1]), ParseInt(ws[2]), ParseInt(ws[3]), ParseInts(ws[4..]))
      case (Some(w), Some(h), Some(mv), Some(px)) =>
        if |px| == Dim(w) * Dim(h) then Some(Gray(w, h, mv, px)) else None
      case _ => None
  }

  lemma DecWordsAppend(a: seq<int>, b: seq<int>)
    ensures DecWords(a + b) == DecWords(a) + DecWords(b)
  {
    assert |DecWords(a + b)| == |DecWords(a) + DecWords(b)|;
  }

  /** One more entry adds its printed value as one more word. */
  lemma WordsOfRowStep(row: seq<real>, n: nat)
    requires 0 < n <= |row|
    ensures Words(RowText(row, n)) == Words(RowText(row, n - 1)) + [Dec(row[n - 1].Floor)]
  {
    var v := row[n - 1].Floor;
    WordsAppend(RowText(row, n - 1), Dec(v) + " ");
    DecIsWord(v);
    WordsOfWord(Dec(v), ' ');
  }

  lemma {:induction false} WordsOfRow(row: seq<real>, n: nat)
    requires n <= |row|
    ensures Words(RowText(row, n)) == DecWords(RowLevels(row, n))
  {
    if n > 0 {
      WordsOfRow(row, n - 1);
      WordsOfRowStep(row, n);
      var v := row[n - 1].Floor;
      DecWordsAppend(RowLevels(row, n - 1), [v]);
      assert DecWords([v]) == [Dec(v)];
      assert RowLevels(row, n) == RowLevels(row, n - 1) + [v];
    }
  }

  /** A closed text followed by a line and a line break reads as the words
      of the one and then those of the other. */
  lemma WordsOfLine(t: string, line: string)
    requires Closed(t) && Closed(line)
    ensures Words(t + (line + "\n")) == Words(t) + Words(line)
  {
    WordsAppend(t, line + "\n");
    WordsAppend(line, "\n");
    assert Words("\n") == [];
  }

  lemma WordsOfBody(m: Matrix<real>, cols: nat, rows: nat)
    requires Printable(m, cols, rows)
    ensures Words(BodyText(m, cols, rows)) == DecWords(Levels(m, cols, rows))
  {
    var k := 0;
    assert Words(BodyText(m, cols, 0)) == DecWords(Levels(m, cols, 0));
    while k < rows
      invariant k <= rows
      invariant Words(BodyText(m, cols, k)) == DecWords(Levels(m, cols, k))
    {
      WordsOfNextRow(m, cols, k + 1);
      k := k + 1;
    }
  }

  /** Printing one more row extends the words as reading one more row
      extends the levels. */
  lemma WordsOfNextRow(m: Matrix<real>, cols: nat, rows: nat)
    requires Printable(m, cols, rows) && rows > 0
    requires Words(BodyText(m, cols, rows - 1)) == DecWords(Levels(m, cols, rows - 1))
    ensures Words(BodyText(m, cols, rows)) == DecWords(Levels(m, cols, rows))
  {
    WordsOfRow(m[rows - 1], cols);
    WordsOfBodyStep(m, cols, rows);
    LevelsStep(m, cols, rows);
  }

  lemma WordsOfBodyStep(m: Matrix<real>, cols: nat, rows: nat)
    requires Printable(m, cols, rows) && rows > 0
    ensures Words(BodyText(m, cols, rows))
         == Words(BodyText(m, cols, rows - 1)) + Words(RowText(m[rows - 1], cols))
  {
    WordsOfLine(BodyText(m, cols, rows - 1), RowText(m[rows - 1], cols));
  }

  lemma LevelsStep(m: Matrix<real>, cols: nat, rows: nat)
    requires Printable(m, cols, rows) && rows > 0
    ensures DecWords(Levels(m, cols, rows))
         == DecWords(Levels(m, cols, rows - 1)) + DecWords(RowLevels(m[rows - 1], cols))
  {
    DecWordsAppend(Levels(m, cols, rows - 1), RowLevels(m[rows - 1], cols));
  }

  /** The header reads as its four fields. */
  lemma WordsOfHeader(width: int, height: int)
    ensures Words(HeaderText(width, height)) == ["P2", Dec(width), Dec(height), Dec(255)]
  {
    WordsOfFields("P2", width, height, 255);
  }

  lemma WordsOfFields(magic: string, width: int, height: int, maxval: int)
    requires IsWord(magic)
    ensures Words(magic + "\n" + (Dec(width) + " ") + (Dec(height) + "\n") + (Dec(maxval) + " " + "\n"))
         == [magic, Dec(width), Dec(height), Dec(maxval)]
  {
    WordsOfWord(magic, '\n');
    WordsOfDec(width, ' ');
    WordsOfDec(height, '\n');
    WordsOfLast(maxval);
    WordsOfFour(magic + "\n", Dec(width) + " ", Dec(height) + "\n", Dec(maxval) + " " + "\n",
                magic, Dec(width), Dec(height), Dec(maxval));
  }

  lemma WordsOfLast(n: int)
    ensures Words(Dec(n) + " " + "\n") == [Dec(n)]
  {
    WordsOfDec(n, ' ');
    WordsAppend(Dec(n) + " ", "\n");
    assert Words("\n") == [];
  }

  /** Reading the written file back gives its size, the maximum 255 and
      the printed rows' levels in row-major order. */
  lemma PgmTextRoundTrip(m: Matrix<real>, width: int, height: int)
    requires Printable(m, Dim(width), Dim(height))
    ensures ParsePgm(PgmText(m, width, height))
         == Some(Gray(width, height, 255, Levels(m, Dim(width), Dim(height))))
  {
    var levels := Levels(m, Dim(width), Dim(height));
    LevelsLength(m, Dim(width), Dim(height));
    ParseFields(PgmText(m, width, height), width, height, 255, levels);
  }

  /** Any text whose words are the fields of a grey map reads as that map. */
  lemma ParseFields(s: string, width: int, height: int, maxval: int, pixels: seq<int>)
    requires Words(s) == ["P2", Dec(width), Dec(height), Dec(maxval)] + DecWords(pixels)
    requires |pixels| == Dim(width) * Dim(height)
    ensures ParsePgm(s) == Some(Gray(width, height, maxval, pixels))
  {
    assert Words(s)[4..] == DecWords(pixels);
    DecRoundTrip(width);
    DecRoundTrip(height);
    DecRoundTrip(maxval);
    ParseDecWords(pixels);
  }
}
