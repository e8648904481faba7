/** Dense real matrices with an explicit shape: the value semantics of the source's
    scipy `lil_matrix`, `block_diag`, `eye` and element assignment `M[i, j] = v`. */
module Matrices {

  import opened Wrappers

  datatype Matrix = Matrix(rows: nat, cols: nat, data: seq<seq<real>>)

  /** The data has exactly `rows` rows of `cols` entries each. */
  ghost predicate Valid(m: Matrix) {
    |m.data| == m.rows && forall i :: 0 <= i < m.rows ==> |m.data[i]| == m.cols
  }

  /** The entry at (i, j). */
  function At(m: Matrix, i: nat, j: nat): real
    requires Valid(m) && i < m.rows && j < m.cols
  {
    m.data[i][j]
  }

  /** An all-zero matrix, as `lil_matrix((rows, cols))` and `zeros`. */
  function Zeros(rows: nat, cols: nat): (m: Matrix)
    ensures Valid(m) && m.rows == rows && m.cols == cols
    ensures forall i, j :: 0 <= i < rows && 0 <= j < cols ==> At(m, i, j) == 0.0
  {
    Matrix(rows, cols, seq(rows, i => seq(cols, j => 0.0)))
  }

  /** `-eye(n)`: the negated n-by-n identity. */
  function NegIdentity(n: nat): (m: Matrix)
    ensures Valid(m) && m.rows == n && m.cols == n
    ensures forall i, j :: 0 <= i < n && 0 <= j < n ==> At(m, i, j) == if i == j then -1.0 else 0.0
  {
    Matrix(n, n, seq(n, i => seq(n, j => if i == j then -1.0 else 0.0)))
  }

  /** `block_diag([a, b])`: `a` in the top-left corner, `b` in the bottom-right, zero elsewhere. */
  function BlockDiag2(a: Matrix, b: Matrix): (m: Matrix)
    requires Valid(a) && Valid(b)
    ensures Valid(m) && m.rows == a.rows + b.rows && m.cols == a.cols + b.cols
  {
    Matrix(a.rows + b.rows, a.cols + b.cols,
      seq(a.rows + b.rows, i requires 0 <= i < a.rows + b.rows =>
        seq(a.cols + b.cols, j requires 0 <= j < a.cols + b.cols =>
          if i < a.rows then (if j < a.cols then a.data[i][j] else 0.0)
          else if j >= a.cols then b.data[i - a.rows][j - a.cols] else 0.0)))
  }

  /** Each block of `block_diag([a, b])` sits at its offset and the off-diagonal blocks are zero. */
  lemma BlockDiag2At(a: Matrix, b: Matrix, i: nat, j: nat)
    requires Valid(a) && Valid(b) && i < a.rows + b.rows && j < a.cols + b.cols
    ensures i < a.rows && j < a.cols ==> At(BlockDiag2(a, b), i, j) == At(a, i, j)
    ensures i >= a.rows && j >= a.cols ==> At(BlockDiag2(a, b), i, j) == At(b, i - a.rows, j - a.cols)
    ensures (i < a.rows) != (j < a.cols) ==> At(BlockDiag2(a, b), i, j) == 0.0
  {
  }

  /** `block_diag([a, b])` with an empty `b` is `a` itself. */
  lemma BlockDiag2Empty(a: Matrix, b: Matrix)
    requires Valid(a) && Valid(b) && b.rows == 0 && b.cols == 0
    ensures BlockDiag2(a, b) == a
  {
    var m := BlockDiag2(a, b);
    forall i | 0 <= i < a.rows
      ensures m.data[i] == a.data[i]
    {
      assert forall j :: 0 <= j < a.cols ==> m.data[i][j] == a.data[i][j];
    }
  }

  /** One element assignment `M[row, col] = value`. */
  datatype Write = Write(row: nat, col: nat, value: real)

  /** The entry assignment itself: only cell (w.row, w.col) changes. */
  function Assign(m: Matrix, w: Write): (r: Matrix)
    requires Valid(m) && w.row < m.rows && w.col < m.cols
    ensures Valid(r) && r.rows == m.rows && r.cols == m.cols
    ensures forall i, j :: 0 <= i < m.rows && 0 <= j < m.cols ==>
      At(r, i, j) == if i == w.row && j == w.col then w.value else At(m, i, j)
  {
    Matrix(m.rows, m.cols, m.data[w.row := m.data[w.row][w.col := w.value]])
  }

  /** Every write lands inside an r-by-c matrix. */
  ghost predicate InBounds(ws: seq<Write>, rows: nat, cols: nat) {
    forall k :: 0 <= k < |ws| ==> ws[k].row < rows && ws[k].col < cols
  }

  /** Performing the writes one after the other, in order. */
  function ApplyWrites(m: Matrix, ws: seq<Write>): (r: Matrix)
    requires Valid(m) && InBounds(ws, m.rows, m.cols)
    ensures Valid(r) && r.rows == m.rows && r.cols == m.cols
  {
    if ws == [] then m
    else Assign(ApplyWrites(m, ws[..|ws| - 1]), ws[|ws| - 1])
  }

  lemma ApplyWritesSnoc(m: Matrix, ws: seq<Write>, w: Write)
    requires Valid(m) && InBounds(ws + [w], m.rows, m.cols)
    ensures InBounds(ws, m.rows, m.cols)
    ensures ApplyWrites(m, ws + [w]) == Assign(ApplyWrites(m, ws), w)
  {
    assert (ws + [w])[..|ws|] == ws;
    assert forall k :: 0 <= k < |ws| ==> ws[k] == (ws + [w])[k];
  }

  /** The value of the last write aimed at cell (i, j), if any. */
  function LastWrite(ws: seq<Write>, i: nat, j: nat): Option<real> {
    if ws == [] then None
    else if ws[|ws| - 1].row == i && ws[|ws| - 1].col == j then Some(ws[|ws| - 1].value)
    else LastWrite(ws[..|ws| - 1], i, j)
  }

  /** Direct assignment, not accumulation: after a sequence of writes each cell holds the
      value of the last write to it, or its original value when nothing was written there. */
  lemma {:induction false} ApplyWritesAt(m: Matrix, ws: seq<Write>, i: nat, j: nat)
    requires Valid(m) && InBounds(ws, m.rows, m.cols) && i < m.rows && j < m.cols
    ensures At(ApplyWrites(m, ws), i, j) ==
      match LastWrite(ws, i, j) case Some(v) => v case None => At(m, i, j)
  {
    if ws != [] {
      ApplyWritesAt(m, ws[..|ws| - 1], i, j);
    }
  }

  /** Appending writes: the last write to a cell is the appended part's, if it has one. */
  lemma LastWriteAppend(ws: seq<Write>, vs: seq<Write>, i: nat, j: nat)
    ensures LastWrite(ws + vs, i, j) == match LastWrite(vs, i, j) case Some(v) => Some(v) case None => LastWrite(ws, i, j)
    decreases |vs|
  {
    if vs != [] {
      assert (ws + vs)[..|ws + vs| - 1] == ws + vs[..|vs| - 1];
      LastWriteAppend(ws, vs[..|vs| - 1], i, j);
    } else {
      assert ws + vs == ws;
    }
  }

  /** Writes that all miss cell (i, j) leave no last write there. */
  lemma {:induction false} LastWriteUntouched(ws: seq<Write>, i: nat, j: nat)
    requires forall k :: 0 <= k < |ws| ==> ws[k].row != i || ws[k].col != j
    ensures LastWrite(ws, i, j) == None
  {
    if ws != [] {
      LastWriteUntouched(ws[..|ws| - 1], i, j);
    }
  }
}
