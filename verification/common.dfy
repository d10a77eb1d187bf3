/** Shared vocabulary of the model: optional values, bytes, grid cells, the
    faults a rasterising pass can run into, and the "last write wins" reading
    of a sequence of grid updates. */
module Common {

  datatype Option<+T> = None | Some(value: T)

  /** An 8-bit unsigned value, the `unsigned char` of the source. */
  newtype byte = x: int | 0 <= x < 256

  /** A grid position: (row, column). */
  type Cell = (int, int)

  /** Why a rasterising pass produces no image; the source checks for
      neither.  An access outside a vector or array is undefined behaviour.
      A zero axis maximum divides by zero: the floating-point result is an
      infinity or NaN.  Converting it to an `int` index or band is undefined
      behaviour; only `write_2_PGM`'s grey level of a zero altitude maximum
      stays defined (a NaN stored and printed), and the model stops there
      too. */
  datatype Fault =
    | DegenerateExtent                              // an axis maximum is 0: the scale divides by zero
    | OutOfBounds(point: nat, row: int, col: int)   // the point's cell or a neighbour lies outside a grid

  datatype Result<+T> = Ok(value: T) | Err(fault: Fault)

  function Clamp(v: int, lo: int, hi: int): (r: int)
    requires lo <= hi
    ensures lo <= r <= hi
    ensures lo <= v <= hi ==> r == v
  {
    if v < lo then lo else if v > hi then hi else v
  }

  /** The index of the last occurrence of `x` in `s`, if any. */
  function LastIndexOf<T(==)>(s: seq<T>, x: T): (r: Option<nat>)
    ensures r.None? <==> x !in s
    ensures r.Some? ==> r.value < |s| && s[r.value] == x
    ensures r.Some? ==> forall q :: r.value < q < |s| ==> s[q] != x
  {
    if |s| == 0 then None
    else if s[|s| - 1] == x then Some(|s| - 1)
    else LastIndexOf(s[..|s| - 1], x)
  }

  /** The value a cell holds after writing `vals[k]` to `cells[k]` for every
      k in order, starting from `base`: the last write wins. */
  function LastWrite<T>(cells: seq<Cell>, vals: seq<T>, cell: Cell, base: T): T
    requires |cells| == |vals|
  {
    match LastIndexOf(cells, cell)
    case None => base
    case Some(k) => vals[k]
  }

  lemma LastIndexOfSnoc<T>(s: seq<T>, x: T, y: T)
    ensures LastIndexOf(s + [x], y) == if x == y then Some(|s|) else LastIndexOf(s, y)
  {
    assert (s + [x])[..|s|] == s;
  }

  /** Extending the update sequence by one write changes only the written cell. */
  lemma LastWriteSnoc<T>(cells: seq<Cell>, vals: seq<T>, c: Cell, v: T, cell: Cell, base: T)
    requires |cells| == |vals|
    ensures LastWrite(cells + [c], vals + [v], cell, base)
         == if c == cell then v else LastWrite(cells, vals, cell, base)
  {
    LastIndexOfSnoc(cells, c, cell);
    if c != cell {
      match LastIndexOf(cells, cell)
      case None =>
      case Some(k) => assert (vals + [v])[k] == vals[k];
    }
  }

  /** An entry of the second part of a prefix `a + b` of `whole`, where
      `a` has `n` entries. */
  lemma PrefixAt<T>(a: seq<T>, b: seq<T>, whole: seq<T>, n: nat, k: nat)
    requires a + b <= whole && |a| == n && k < |b|
    ensures n + k < |whole| && whole[n + k] == b[k]
  {
    assert (a + b)[|a| + k] == b[k];
  }
}
