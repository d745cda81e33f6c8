/**
 * A sparse square matrix stored twice over, once by rows and once by
 * columns, and its in-place LU factorisation (right-looking Doolittle
 * elimination without pivoting).
 *
 * Every index has a `Vertex` holding two maps: `asRow` (column -> value) and
 * `asColumn` (row -> value). The ghost map `Cells` is the matrix those maps
 * represent; `Valid()` says that both views hold exactly the cells of
 * `Cells` (the mirror invariant). Values are exact reals: floating-point
 * rounding is not modelled.
 */
module SparseLu {

  datatype Option<T> = None | Some(value: T)

  /** `EPSILON = 1e-14`: a magnitude at most this counts as zero. */
  const EPSILON: real := 0.00000000000001

  function Abs(x: real): real
  {
    if x < 0.0 then -x else x
  }

  /** The stored cells of a matrix, keyed by (row, column). */
  type Store = map<(int, int), real>

  /** What `__getitem__` returns: the stored value, or 0.0 for a cell that is not stored. */
  function Lookup(m: Store, row: int, column: int): real
  {
    if (row, column) in m then m[(row, column)] else 0.0
  }

  /** The rows stored in column `idx`: the keys of `graph[idx].as_column`. */
  function ColumnKeys(m: Store, idx: int): (rows: set<int>)
    ensures forall r :: r in rows <==> (r, idx) in m
  {
    set k | k in m && k.1 == idx :: k.0
  }

  /** The columns stored in row `idx`: the keys of `graph[idx].as_row`. */
  function RowKeys(m: Store, idx: int): (columns: set<int>)
    ensures forall c :: c in columns <==> (idx, c) in m
  {
    set k | k in m && k.0 == idx :: k.1
  }

  /** The cells (r, c) with r in `rows`, c in `columns`, both beyond `idx`. */
  function Pairs(rows: set<int>, columns: set<int>, idx: int): (p: set<(int, int)>)
    ensures forall k :: k in p <==> k.0 in rows && k.1 in columns && idx < k.0 && idx < k.1
  {
    set r, c | r in rows && c in columns && idx < r && idx < c :: (r, c)
  }

  /** A non-empty set has an element. */
  lemma Inhabited(s: set<int>)
    requires s != {}
    ensures exists x :: x in s
  {
    if forall x :: x !in s {
      assert false;
    }
  }

  /** Moving one element from the to-do part of a split of `all` to its visited part. */
  lemma MoveOne(todo: set<int>, visited: set<int>, all: set<int>, x: int)
    requires todo + visited == all && todo !! visited && x in todo
    ensures (todo - {x}) + (visited + {x}) == all && (todo - {x}) !! (visited + {x})
  {
  }

  /** Adding one row to the visited rows adds that row's cells. */
  lemma PairsGrowRows(rows: set<int>, columns: set<int>, r: int, idx: int)
    ensures Pairs(rows + {r}, columns, idx) == Pairs(rows, columns, idx) + Pairs({r}, columns, idx)
  {
  }

  /** Adding one column to the visited columns adds that column's cells. */
  lemma PairsGrowColumns(rows: set<int>, columns: set<int>, c: int, idx: int)
    ensures Pairs(rows, columns + {c}, idx) == Pairs(rows, columns, idx) + Pairs(rows, {c}, idx)
    ensures c <= idx ==> Pairs(rows, columns + {c}, idx) == Pairs(rows, columns, idx)
  {
  }

  /** The cells the update loops have finished once one more row is visited for column `column`. */
  lemma PairsNextRow(done: set<(int, int)>, visited: set<int>, row: int, column: int, idx: int)
    ensures done + Pairs(visited + {row}, {column}, idx) ==
      if idx < row && idx < column then done + Pairs(visited, {column}, idx) + {(row, column)}
      else done + Pairs(visited, {column}, idx)
  {
    PairsGrowRows(visited, {column}, row, idx);
    if idx < row && idx < column {
      assert Pairs({row}, {column}, idx) == {(row, column)};
    } else {
      assert Pairs({row}, {column}, idx) == {};
    }
  }

  /** Step `idx` raises ZeroDivisionError: the pivot is 0.0 and a cell below it is stored. */
  predicate DivisionFails(m: Store, idx: int)
  {
    Lookup(m, idx, idx) == 0.0 && exists r :: r in ColumnKeys(m, idx) && idx < r
  }

  /**
   * The first loop of step `idx` once it has visited the rows in `rows`:
   * each stored cell (r, idx) with r > idx among them is divided by the pivot.
   */
  function DivideRows(m: Store, idx: int, rows: set<int>): (d: Store)
    requires Lookup(m, idx, idx) != 0.0 || forall r :: r in rows && idx < r ==> (r, idx) !in m
    ensures d.Keys == m.Keys
  {
    map k | k in m :: if k.1 == idx && idx < k.0 && k.0 in rows then m[k] / Lookup(m, idx, idx) else m[k]
  }

  /** The new value of cell (row, column) in the update loops of step `idx`. */
  function UpdateValue(m: Store, idx: int, row: int, column: int): real
  {
    var value := -Lookup(m, row, idx) * Lookup(m, idx, column);
    if Abs(Lookup(m, row, column)) <= EPSILON then value else Lookup(m, row, column) + value
  }

  /** The update loops of step `idx` once they have visited the cells in `done`. */
  function UpdateCells(m: Store, idx: int, done: set<(int, int)>): (u: Store)
    ensures u.Keys == m.Keys + done
  {
    map k | k in m.Keys + done :: if k in done then UpdateValue(m, idx, k.0, k.1) else m[k]
  }

  /** One iteration of the outer loop of `lu_self_storage`, when it does not raise. */
  function Step(m: Store, idx: int): Store
    requires !DivisionFails(m, idx)
  {
    var d := DivideRows(m, idx, ColumnKeys(m, idx));
    UpdateCells(d, idx, Pairs(ColumnKeys(d, idx), RowKeys(d, idx), idx))
  }

  /** How `lu_self_storage` ends: all steps done, or ZeroDivisionError at `step`. */
  datatype Outcome = Factored(cells: Store) | ZeroPivot(step: nat, cells: Store)

  /** Steps `idx .. n-1` of `lu_self_storage` applied to `m`. */
  function Eliminate(m: Store, idx: nat, n: nat): (o: Outcome)
    decreases n - idx
    ensures o.ZeroPivot? ==> idx <= o.step < n && DivisionFails(o.cells, o.step)
  {
    if n <= idx then Factored(m)
    else if DivisionFails(m, idx) then ZeroPivot(idx, m)
    else Eliminate(Step(m, idx), idx + 1, n)
  }

  // ---------------------------------------------------------------------------
  // What one step does

  /** The cells a step stores: the old ones plus the fill-in, which appears exactly where both factors are stored. */
  lemma StepKeys(m: Store, idx: int)
    requires !DivisionFails(m, idx)
    ensures forall r, c :: (r, c) in Step(m, idx) <==>
      (r, c) in m || (idx < r && idx < c && (r, idx) in m && (idx, c) in m)
  {
    var d := DivideRows(m, idx, ColumnKeys(m, idx));
    assert ColumnKeys(d, idx) == ColumnKeys(m, idx) && RowKeys(d, idx) == RowKeys(m, idx);
  }

  /** A step changes only the cells (r, idx) below the pivot and the cells (r, c) with r, c > idx. */
  lemma StepFrame(m: Store, idx: int)
    requires !DivisionFails(m, idx)
    ensures forall k :: k in m && !(idx < k.0 && idx <= k.1) ==> k in Step(m, idx) && Step(m, idx)[k] == m[k]
  {
  }

  /** Below the pivot a step stores the multiplier: the old value divided by the pivot. */
  lemma StepDividesColumn(m: Store, idx: int)
    requires !DivisionFails(m, idx)
    ensures forall r :: idx < r && (r, idx) in m ==>
      Lookup(m, idx, idx) != 0.0 && Step(m, idx)[(r, idx)] == m[(r, idx)] / Lookup(m, idx, idx)
  {
    forall r | idx < r && (r, idx) in m
      ensures Lookup(m, idx, idx) != 0.0
    {
      assert r in ColumnKeys(m, idx);
    }
  }

  /**
   * In the trailing block a step subtracts multiplier times pivot-row entry;
   * a cell whose magnitude is at most EPSILON is overwritten instead.
   */
  lemma StepUpdatesTrailing(m: Store, idx: int)
    requires !DivisionFails(m, idx)
    ensures forall r, c :: idx < r && idx < c && (r, idx) in m && (idx, c) in m ==>
      Lookup(m, idx, idx) != 0.0 &&
      var product := m[(r, idx)] / Lookup(m, idx, idx) * m[(idx, c)];
      Step(m, idx)[(r, c)] == if Abs(Lookup(m, r, c)) <= EPSILON then -product else Lookup(m, r, c) - product
  {
    forall r, c | idx < r && idx < c && (r, idx) in m && (idx, c) in m
      ensures Lookup(m, idx, idx) != 0.0 &&
        var product := m[(r, idx)] / Lookup(m, idx, idx) * m[(idx, c)];
        Step(m, idx)[(r, c)] == if Abs(Lookup(m, r, c)) <= EPSILON then -product else Lookup(m, r, c) - product
    {
      StepUpdatesCell(m, idx, r, c);
    }
  }

  /** One cell of the trailing block after a step, as `StepUpdatesTrailing` states it. */
  lemma StepUpdatesCell(m: Store, idx: int, r: int, c: int)
    requires !DivisionFails(m, idx)
    requires idx < r && idx < c && (r, idx) in m && (idx, c) in m
    ensures Lookup(m, idx, idx) != 0.0
    ensures Step(m, idx)[(r, c)] ==
      var product := m[(r, idx)] / Lookup(m, idx, idx) * m[(idx, c)];
      if Abs(Lookup(m, r, c)) <= EPSILON then -product else Lookup(m, r, c) - product
  {
    assert r in ColumnKeys(m, idx);
    var d := DivideRows(m, idx, ColumnKeys(m, idx));
    assert (r, c) in Pairs(ColumnKeys(d, idx), RowKeys(d, idx), idx);
    assert Lookup(d, r, idx) == m[(r, idx)] / Lookup(m, idx, idx);
    assert Lookup(d, idx, c) == m[(idx, c)] && Lookup(d, r, c) == Lookup(m, r, c);
    var product := m[(r, idx)] / Lookup(m, idx, idx) * m[(idx, c)];
    assert UpdateValue(d, idx, r, c) == if Abs(Lookup(m, r, c)) <= EPSILON then -product else Lookup(m, r, c) - product;
    assert Step(m, idx) == UpdateCells(d, idx, Pairs(ColumnKeys(d, idx), RowKeys(d, idx), idx));
  }

  /** Every stored cell lies within `width` of the diagonal. */
  predicate Banded(m: Store, width: int)
  {
    forall k :: k in m ==> -width <= k.0 - k.1 <= width
  }

  /** Fill-in never leaves the band of the matrix. */
  lemma StepPreservesBand(m: Store, idx: int, width: int)
    requires !DivisionFails(m, idx) && Banded(m, width)
    ensures Banded(Step(m, idx), width)
  {
    StepKeys(m, idx);
    forall k | k in Step(m, idx)
      ensures -width <= k.0 - k.1 <= width
    {
      if k !in m {
        assert (k.0, idx) in m && (idx, k.1) in m;
      }
    }
  }

  // ---------------------------------------------------------------------------
  // What the whole elimination does

  /**
   * No stored cell is ever removed; a cell that appears during steps
   * `idx ..` has both its row and its column beyond `idx`.
   */
  lemma {:induction false} EliminateGrowsKeys(m: Store, idx: nat, n: nat)
    ensures m.Keys <= Eliminate(m, idx, n).cells.Keys
    ensures forall k :: k in Eliminate(m, idx, n).cells && k !in m ==> idx < k.0 && idx < k.1
    decreases n - idx
  {
    if idx < n && !DivisionFails(m, idx) {
      StepKeys(m, idx);
      EliminateGrowsKeys(Step(m, idx), idx + 1, n);
    }
  }

  /**
   * Steps `idx ..` leave every cell in rows up to `idx` and in columns
   * before `idx` alone: once computed, a row of U and a column of L are final.
   */
  lemma {:induction false} EliminateKeepsSettled(m: Store, idx: nat, n: nat)
    ensures forall k :: k in m && (k.0 <= idx || k.1 < idx) ==>
      k in Eliminate(m, idx, n).cells && Eliminate(m, idx, n).cells[k] == m[k]
    decreases n - idx
  {
    if idx < n && !DivisionFails(m, idx) {
      StepFrame(m, idx);
      EliminateKeepsSettled(Step(m, idx), idx + 1, n);
    }
  }

  /** The whole elimination keeps a banded matrix within its band. */
  lemma {:induction false} EliminatePreservesBand(m: Store, idx: nat, n: nat, width: int)
    requires Banded(m, width)
    ensures Banded(Eliminate(m, idx, n).cells, width)
    decreases n - idx
  {
    if idx < n && !DivisionFails(m, idx) {
      StepPreservesBand(m, idx, width);
      EliminatePreservesBand(Step(m, idx), idx + 1, n, width);
    }
  }

  /** [[2, 1], [4, 3]] factors in place into L = [[1, 0], [2, 1]] and U = [[2, 1], [0, 1]]. */
  lemma FactorsTwoByTwo()
    ensures var o := Eliminate(map[(0, 0) := 2.0, (0, 1) := 1.0, (1, 0) := 4.0, (1, 1) := 3.0], 0, 2);
      o.Factored? &&
      Lookup(o.cells, 0, 0) == 2.0 && Lookup(o.cells, 0, 1) == 1.0 &&
      Lookup(o.cells, 1, 0) == 2.0 && Lookup(o.cells, 1, 1) == 1.0
  {
    var m := map[(0, 0) := 2.0, (0, 1) := 1.0, (1, 0) := 4.0, (1, 1) := 3.0];
    assert !DivisionFails(m, 0) by {
      assert Lookup(m, 0, 0) == 2.0;
    }
    StepFrame(m, 0);
    StepDividesColumn(m, 0);
    StepUpdatesTrailing(m, 0);
    var s := Step(m, 0);
    assert Abs(Lookup(m, 1, 1)) > EPSILON;
    assert s[(0, 0)] == 2.0 && s[(0, 1)] == 1.0 && s[(1, 0)] == 2.0 && s[(1, 1)] == 1.0;
    assert !DivisionFails(s, 1) by {
      assert Lookup(s, 1, 1) == 1.0;
    }
    EliminateKeepsSettled(s, 1, 2);
  }

  /** [[0, 1], [1, 0]] raises ZeroDivisionError at the first step and is left as it was. */
  lemma ZeroPivotTwoByTwo()
    ensures Eliminate(map[(0, 1) := 1.0, (1, 0) := 1.0], 0, 2)
         == ZeroPivot(0, map[(0, 1) := 1.0, (1, 0) := 1.0])
  {
    var m := map[(0, 1) := 1.0, (1, 0) := 1.0];
    assert 1 in ColumnKeys(m, 0);
  }

  // ---------------------------------------------------------------------------
  // One iteration of the inner loops

  /** Visiting one more row in the division loop: at most the cell (r, idx) changes. */
  lemma DivideOneMore(m: Store, idx: int, rows: set<int>, r: int)
    requires Lookup(m, idx, idx) != 0.0 || (r <= idx && forall r' :: r' in rows && idx < r' ==> (r', idx) !in m)
    requires r !in rows
    ensures DivideRows(m, idx, rows + {r}) ==
      if idx < r && (r, idx) in m then DivideRows(m, idx, rows)[(r, idx) := m[(r, idx)] / Lookup(m, idx, idx)]
      else DivideRows(m, idx, rows)
  {
  }

  /** The division loop never changes the pivot; before it reaches a row below the pivot it changes nothing. */
  lemma DivideRowsPivot(m: Store, idx: int, rows: set<int>)
    requires Lookup(m, idx, idx) != 0.0 || forall r :: r in rows && idx < r ==> (r, idx) !in m
    ensures Lookup(DivideRows(m, idx, rows), idx, idx) == Lookup(m, idx, idx)
    ensures (forall r :: r in rows ==> r <= idx) ==> DivideRows(m, idx, rows) == m
  {
  }

  /**
   * Visiting one more cell (r, c) in the update loops: the factors it reads
   * are not among the cells already visited, so it gets its value from `m`.
   */
  lemma UpdateOneMore(m: Store, idx: int, done: set<(int, int)>, r: int, c: int)
    requires idx < r && idx < c && (r, c) !in done
    requires forall k :: k in done ==> idx < k.0 && idx < k.1
    ensures UpdateValue(UpdateCells(m, idx, done), idx, r, c) == UpdateValue(m, idx, r, c)
    ensures UpdateCells(m, idx, done + {(r, c)}) == UpdateCells(m, idx, done)[(r, c) := UpdateValue(m, idx, r, c)]
  {
    var u := UpdateCells(m, idx, done);
    assert Lookup(u, r, idx) == Lookup(m, r, idx);
    assert Lookup(u, idx, c) == Lookup(m, idx, c);
    assert Lookup(u, r, c) == Lookup(m, r, c);
  }

  /** The cells stored by the constructor once it reaches (row, column): the earlier cells in row-major order whose magnitude exceeds EPSILON. */
  function Stored(dense: seq<seq<real>>, row: int, column: int): (s: Store)
    ensures forall k :: k in s <==>
      0 <= k.0 < |dense| && 0 <= k.1 < |dense[k.0]| && (k.0 < row || (k.0 == row && k.1 < column)) &&
      Abs(dense[k.0][k.1]) > EPSILON
    ensures forall k :: k in s ==> s[k] == dense[k.0][k.1]
  {
    map k | k in Positions(dense) && (k.0 < row || (k.0 == row && k.1 < column)) && Abs(dense[k.0][k.1]) > EPSILON
      :: dense[k.0][k.1]
  }

  function Positions(dense: seq<seq<real>>): (p: set<(int, int)>)
    ensures forall k :: k in p <==> 0 <= k.0 < |dense| && 0 <= k.1 < |dense[k.0]|
  {
    set i, j | 0 <= i < |dense| && 0 <= j < |dense[i]| :: (i, j)
  }

  /** Visiting cell (i, j) stores it exactly when its magnitude exceeds EPSILON. */
  lemma StoredNext(dense: seq<seq<real>>, i: int, j: int)
    requires 0 <= i < |dense| && 0 <= j < |dense[i]|
    ensures Stored(dense, i, j + 1) ==
      if Abs(dense[i][j]) > EPSILON then Stored(dense, i, j)[(i, j) := dense[i][j]] else Stored(dense, i, j)
  {
    var a := Stored(dense, i, j + 1);
    var b := if Abs(dense[i][j]) > EPSILON then Stored(dense, i, j)[(i, j) := dense[i][j]] else Stored(dense, i, j);
    assert a.Keys == b.Keys;
  }

  /** The end of row i is the start of row i + 1; nothing is stored before the first cell. */
  lemma StoredNextRow(dense: seq<seq<real>>, i: int)
    requires 0 <= i < |dense|
    ensures Stored(dense, i, |dense[i]|) == Stored(dense, i + 1, 0)
    ensures Stored(dense, 0, 0) == map[]
  {
    var a := Stored(dense, i, |dense[i]|);
    var b := Stored(dense, i + 1, 0);
    assert a.Keys == b.Keys;
    assert Stored(dense, 0, 0).Keys == {};
  }

  /** A matrix built from `dense` reads back `dense[r][c]` where its magnitude exceeds EPSILON, and 0.0 everywhere else. */
  lemma StoredReadsBack(dense: seq<seq<real>>, r: int, c: int)
    requires 0 <= r < |dense| && 0 <= c
    ensures Lookup(Stored(dense, |dense|, 0), r, c) ==
      if c < |dense[r]| && Abs(dense[r][c]) > EPSILON then dense[r][c] else 0.0
  {
  }

  /** Cells (r, 0) .. (r, k - 1), each read as `__getitem__` reads it. */
  function RowValues(m: Store, r: int, k: nat): (s: seq<real>)
    ensures |s| == k
  {
    if k == 0 then [] else RowValues(m, r, k - 1) + [Lookup(m, r, k - 1)]
  }

  /** What `__iter__` yields for rows 0 .. rows - 1 of an n-column matrix: row after row. */
  function RowMajor(m: Store, rows: nat, n: nat): (s: seq<real>)
  {
    if rows == 0 then [] else RowMajor(m, rows - 1, n) + RowValues(m, rows - 1, n)
  }

  /** Entry c of a row holds cell (r, c). */
  lemma {:induction false} RowValuesAt(m: Store, r: int, k: nat, c: int)
    requires 0 <= c < k
    ensures RowValues(m, r, k)[c] == Lookup(m, r, c)
  {
    if c < k - 1 {
      RowValuesAt(m, r, k - 1, c);
    }
  }

  /** The sequence has rows * n entries, and entry r * n + c is cell (r, c). */
  lemma {:induction false} RowMajorAt(m: Store, rows: nat, n: nat, r: int, c: int)
    requires 0 <= r < rows && 0 <= c < n
    ensures |RowMajor(m, rows, n)| == rows * n
    ensures r * n + c < rows * n && RowMajor(m, rows, n)[r * n + c] == Lookup(m, r, c)
  {
    RowMajorLength(m, rows - 1, n);
    assert rows * n == (rows - 1) * n + n;
    if r < rows - 1 {
      RowMajorAt(m, rows - 1, n, r, c);
    } else {
      RowValuesAt(m, r, n, c);
    }
  }

  /** The sequence has rows * n entries. */
  lemma {:induction false} RowMajorLength(m: Store, rows: nat, n: nat)
    ensures |RowMajor(m, rows, n)| == rows * n
  {
    if rows > 0 {
      RowMajorLength(m, rows - 1, n);
      assert rows * n == (rows - 1) * n + n;
    }
  }

  /**
   * The mirror invariant on values: `rows[r]` is row r of `m` (column ->
   * value) and `columns[c]` is column c of `m` (row -> value), for an n-by-n
   * matrix with n == |rows|. So c is a key of `rows[r]` exactly when r is a
   * key of `columns[c]`, and both hold the same value.
   */
  ghost predicate Represents(rows: seq<map<int, real>>, columns: seq<map<int, real>>, m: Store)
  {
    |rows| == |columns| &&
    (forall k :: k in m ==> 0 <= k.0 < |rows| && 0 <= k.1 < |rows|) &&
    (forall r, c {:trigger c in rows[r]} {:trigger rows[r], (r, c) in m} ::
      0 <= r < |rows| ==> (c in rows[r] <==> (r, c) in m)) &&
    (forall r, c {:trigger r in columns[c]} {:trigger columns[c], (r, c) in m} ::
      0 <= c < |columns| ==> (r in columns[c] <==> (r, c) in m)) &&
    (forall r, c {:trigger rows[r][c]} :: 0 <= r < |rows| && c in rows[r] ==> rows[r][c] == m[(r, c)]) &&
    (forall r, c {:trigger columns[c][r]} :: 0 <= c < |columns| && r in columns[c] ==> columns[c][r] == m[(r, c)])
  }

  /** `__setitem__` keeps the mirror invariant: writing (row, column) into both views writes it into the matrix. */
  lemma RepresentsUpdate(rows: seq<map<int, real>>, columns: seq<map<int, real>>, m: Store, row: int, column: int, value: real)
    requires Represents(rows, columns, m) && 0 <= row < |rows| && 0 <= column < |rows|
    ensures Represents(rows[row := rows[row][column := value]], columns[column := columns[column][row := value]], m[(row, column) := value])
  {
  }

  /** Empty views represent the empty matrix. */
  lemma RepresentsEmpty(n: nat)
    ensures Represents(seq(n, _ => map[]), seq(n, _ => map[]), map[])
  {
  }

  /** The key set of row view `idx` and of column view `idx`. */
  lemma RepresentsKeys(rows: seq<map<int, real>>, columns: seq<map<int, real>>, m: Store, idx: int)
    requires Represents(rows, columns, m) && 0 <= idx < |rows|
    ensures rows[idx].Keys == RowKeys(m, idx)
    ensures columns[idx].Keys == ColumnKeys(m, idx)
  {
    assert forall c :: c in rows[idx].Keys <==> c in RowKeys(m, idx);
    assert forall r :: r in columns[idx].Keys <==> r in ColumnKeys(m, idx);
  }

  // ---------------------------------------------------------------------------
  // The two classes

  /** `Vertex`: the row view and the column view of one index. */
  class Vertex {
    var asRow: map<int, real>
    var asColumn: map<int, real>

    constructor ()
      ensures asRow == map[] && asColumn == map[]
    {
      asRow := map[];
      asColumn := map[];
    }
  }

  /** `[Vertex() for _ in dense_initializer]`: n distinct vertices with empty views. */
  method NewVertices(n: nat) returns (vertices: seq<Vertex>)
    ensures |vertices| == n
    ensures forall i :: 0 <= i < n ==> fresh(vertices[i]) && vertices[i].asRow == map[] && vertices[i].asColumn == map[]
    ensures forall i, j :: 0 <= i < j < n ==> vertices[i] != vertices[j]
  {
    vertices := [];
    while |vertices| < n
      invariant |vertices| <= n
      invariant forall i :: 0 <= i < |vertices| ==>
        fresh(vertices[i]) && vertices[i].asRow == map[] && vertices[i].asColumn == map[]
      invariant forall i, j :: 0 <= i < j < |vertices| ==> vertices[i] != vertices[j]
    {
      var v := new Vertex();
      vertices := vertices + [v];
    }
  }

  /** `SparseMatrixGraph`: one vertex per index, both views kept in step. */
  class SparseMatrixGraph {
    const graph: seq<Vertex>
    /** The row views and the column views, as values. */
    ghost var Rows: seq<map<int, real>>
    ghost var Columns: seq<map<int, real>>
    /** The matrix both views represent. */
    ghost var Cells: Store

    /**
     * The vertices are distinct, `graph[i].asRow` and `graph[i].asColumn`
     * are `Rows[i]` and `Columns[i]`, and those views satisfy the mirror
     * invariant for `Cells`.
     */
    ghost predicate Valid()
      reads this, graph
    {
      |Rows| == |Columns| == |graph| &&
      (forall i, j :: 0 <= i < j < |graph| ==> graph[i] != graph[j]) &&
      (forall i :: 0 <= i < |graph| ==> graph[i].asRow == Rows[i] && graph[i].asColumn == Columns[i]) &&
      Represents(Rows, Columns, Cells)
    }

    /** The key set of `graph[idx].as_column` is the set of rows stored in column `idx`. */
    lemma ColumnView(idx: int)
      requires Valid() && 0 <= idx < |graph|
      ensures graph[idx].asColumn.Keys == ColumnKeys(Cells, idx)
      ensures graph[idx].asRow.Keys == RowKeys(Cells, idx)
    {
      RepresentsKeys(Rows, Columns, Cells, idx);
    }

    /** `__getitem__`: the stored value of (row, column), or 0.0 when none is stored. */
    function Get(row: int, column: int): (v: real)
      requires Valid() && 0 <= row < |graph|
      reads this, graph
      ensures v == Lookup(Cells, row, column)
      ensures (row, column) !in Cells ==> v == 0.0
    {
      if column in graph[row].asRow then graph[row].asRow[column] else 0.0
    }

    /** `__setitem__`: writes the value into row `row`'s view and into column `column`'s view. */
    method Set(row: int, column: int, value: real)
      requires Valid() && 0 <= row < |graph| && 0 <= column < |graph|
      modifies this, graph[row], graph[column]
      ensures Valid()
      ensures Cells == old(Cells)[(row, column) := value]
      ensures graph[row].asRow == old(graph[row].asRow)[column := value]
      ensures graph[column].asColumn == old(graph[column].asColumn)[row := value]
    {
      RepresentsUpdate(Rows, Columns, Cells, row, column, value);
      graph[row].asRow := graph[row].asRow[column := value];
      graph[column].asColumn := graph[column].asColumn[row := value];
      Rows := Rows[row := Rows[row][column := value]];
      Columns := Columns[column := Columns[column][row := value]];
      Cells := Cells[(row, column) := value];
    }

    /**
     * `__init__`: one vertex per row of `dense`, then every cell whose
     * magnitude exceeds EPSILON is set, row by row. A nonzero cell beyond
     * the last vertex would raise IndexError; the precondition excludes it.
     */
    constructor (dense: seq<seq<real>>)
      requires forall i, j :: 0 <= i < |dense| && |dense| <= j < |dense[i]| ==> Abs(dense[i][j]) <= EPSILON
      ensures Valid() && |graph| == |dense|
      ensures forall i :: 0 <= i < |graph| ==> fresh(graph[i])
      ensures Cells == Stored(dense, |dense|, 0)
    {
      var vertices := NewVertices(|dense|);
      graph := vertices;
      Rows := seq(|dense|, _ => map[]);
      Columns := seq(|dense|, _ => map[]);
      Cells := map[];
      new;
      RepresentsEmpty(|dense|);
      if |dense| > 0 {
        StoredNextRow(dense, 0);
      } else {
        assert Stored(dense, 0, 0) == map[];
      }
      var i := 0;
      while i < |dense|
        invariant 0 <= i <= |dense|
        invariant Valid() && |graph| == |dense| && forall t :: 0 <= t < |graph| ==> fresh(graph[t])
        invariant Cells == Stored(dense, i, 0)
      {
        StoreRow(dense, i);
        i := i + 1;
      }
    }

    /** The inner loop of `__init__`: the cells of row `i` whose magnitude exceeds EPSILON, left to right. */
    method StoreRow(dense: seq<seq<real>>, i: int)
      requires Valid() && |graph| == |dense| && 0 <= i < |dense|
      requires forall j :: |dense| <= j < |dense[i]| ==> Abs(dense[i][j]) <= EPSILON
      requires Cells == Stored(dense, i, 0)
      modifies this, graph
      ensures Valid()
      ensures Cells == Stored(dense, i + 1, 0)
    {
      var j := 0;
      while j < |dense[i]|
        invariant 0 <= j <= |dense[i]|
        invariant Valid()
        invariant Cells == Stored(dense, i, j)
      {
        StoredNext(dense, i, j);
        if Abs(dense[i][j]) > EPSILON {
          Set(i, j, dense[i][j]);
        }
        j := j + 1;
      }
      StoredNextRow(dense, i);
    }

    /** `__iter__`: the n * n values in row-major order, 0.0 where no cell is stored. */
    method Iter() returns (values: seq<real>)
      requires Valid()
      ensures values == RowMajor(Cells, |graph|, |graph|)
    {
      var n := |graph|;
      values := [];
      var row := 0;
      while row < n
        invariant 0 <= row <= n && values == RowMajor(Cells, row, n)
      {
        var column := 0;
        while column < n
          invariant 0 <= column <= n && values == RowMajor(Cells, row, n) + RowValues(Cells, row, column)
        {
          values := values + [Get(row, column)];
          column := column + 1;
        }
        row := row + 1;
      }
    }

    /**
     * The first loop of step `idx` (dividing the column below the pivot).
     * It walks the rows stored in column `idx`, whose key set it never
     * changes; on the first row below the pivot it raises ZeroDivisionError
     * when the pivot is 0.0, before any cell has changed.
     */
    method DivideColumn(idx: int) returns (failed: bool)
      requires Valid() && 0 <= idx < |graph|
      modifies this, graph
      ensures Valid()
      ensures failed == DivisionFails(old(Cells), idx)
      ensures failed ==> Cells == old(Cells)
      ensures !failed ==> Cells == DivideRows(old(Cells), idx, ColumnKeys(old(Cells), idx))
    {
      ghost var start := Cells;
      ColumnView(idx);
      var todo := graph[idx].asColumn.Keys;
      ghost var rows := todo;
      ghost var visited: set<int> := {};
      assert forall r :: r in rows ==> 0 <= r < |graph| && (r, idx) in start;
      DivideRowsPivot(start, idx, visited);
      failed := false;
      while todo != {}
        invariant Valid() && todo + visited == rows && todo !! visited
        invariant graph[idx].asColumn.Keys == rows
        invariant Lookup(start, idx, idx) != 0.0 || forall r :: r in visited ==> r <= idx
        invariant Cells == DivideRows(start, idx, visited)
        decreases todo
      {
        Inhabited(todo);
        var row :| row in todo;
        MoveOne(todo, visited, rows, row);
        todo := todo - {row};
        ghost var before := visited;
        visited := visited + {row};
        assert 0 <= row < |graph| && graph[row] in graph;
        failed := DivideVisit(idx, row, start, before);
        if failed {
          assert row in ColumnKeys(start, idx);
          return;
        }
      }
      assert visited == rows;
    }

    /**
     * One iteration of the division loop: rows up to the pivot are skipped,
     * a zero pivot raises ZeroDivisionError (`failed`), otherwise
     * `self[row, idx] /= self[idx, idx]`.
     */
    method DivideVisit(idx: int, row: int, ghost start: Store, ghost visited: set<int>) returns (failed: bool)
      requires Valid() && 0 <= idx < |graph| && 0 <= row < |graph| && row !in visited && (row, idx) in start
      requires Lookup(start, idx, idx) != 0.0 || forall r :: r in visited ==> r <= idx
      requires Cells == DivideRows(start, idx, visited)
      modifies this, graph[row], graph[idx]
      ensures Valid() && graph[idx].asColumn.Keys == old(graph[idx].asColumn.Keys)
      ensures failed ==> Lookup(start, idx, idx) == 0.0 && idx < row && Cells == start
      ensures !failed ==> Lookup(start, idx, idx) != 0.0 || forall r :: r in visited + {row} ==> r <= idx
      ensures !failed ==> Cells == DivideRows(start, idx, visited + {row})
    {
      DivideRowsPivot(start, idx, visited);
      if row <= idx {
        DivideOneMore(start, idx, visited, row);
        return false;
      }
      if Get(idx, idx) == 0.0 {
        return true;
      }
      DivideOneMore(start, idx, visited, row);
      Set(row, idx, Get(row, idx) / Get(idx, idx));
      return false;
    }

    /**
     * The update loops of step `idx` for one column `column` > idx: every
     * row r > idx stored in column `idx` (the set `rows`) gets cell
     * (r, column) updated. The views of index `idx` do not change.
     */
    method UpdateColumn(idx: int, column: int, ghost start: Store, ghost done: set<(int, int)>, ghost rows: set<int>)
      requires Valid() && 0 <= idx < column < |graph| && graph[idx].asColumn.Keys == rows
      requires forall k :: k in done ==> idx < k.0 && idx < k.1 && k.1 != column
      requires Cells == UpdateCells(start, idx, done)
      modifies this, graph
      ensures Valid()
      ensures graph[idx].asRow == old(graph[idx].asRow) && graph[idx].asColumn == old(graph[idx].asColumn)
      ensures Cells == UpdateCells(start, idx, done + Pairs(rows, {column}, idx))
    {
      var todo := graph[idx].asColumn.Keys;
      ghost var visited: set<int> := {};
      assert done + Pairs(visited, {column}, idx) == done;
      while todo != {}
        invariant Valid() && todo + visited == rows && todo !! visited
        invariant graph[idx].asRow == old(graph[idx].asRow) && graph[idx].asColumn == old(graph[idx].asColumn)
        invariant Cells == UpdateCells(start, idx, done + Pairs(visited, {column}, idx))
        decreases todo
      {
        Inhabited(todo);
        var row :| row in todo;
        MoveOne(todo, visited, rows, row);
        todo := todo - {row};
        PairsNextRow(done, visited, row, column, idx);
        if row <= idx {
          visited := visited + {row};
          continue;
        }
        assert graph[idx] != graph[row] && graph[idx] != graph[column];
        UpdateEntry(idx, row, column, start, done + Pairs(visited, {column}, idx));
        visited := visited + {row};
      }
    }

    /** The value the innermost loop computes for cell (row, column) from the three cells it reads. */
    function UpdatedEntry(idx: int, row: int, column: int): (v: real)
      requires Valid() && 0 <= idx < |graph| && 0 <= row < |graph|
      reads this, graph
      ensures v == UpdateValue(Cells, idx, row, column)
    {
      var value := -Get(row, idx) * Get(idx, column);
      if Abs(Get(row, column)) <= EPSILON then value else Get(row, column) + value
    }

    /** The body of the innermost loop: cell (row, column) loses the product of its two factors. */
    method UpdateEntry(idx: int, row: int, column: int, ghost start: Store, ghost done: set<(int, int)>)
      requires Valid() && 0 <= idx < row < |graph| && idx < column < |graph| && (row, column) !in done
      requires forall k :: k in done ==> idx < k.0 && idx < k.1
      requires Cells == UpdateCells(start, idx, done)
      modifies this, graph[row], graph[column]
      ensures Valid()
      ensures Cells == UpdateCells(start, idx, done + {(row, column)})
    {
      UpdateOneMore(start, idx, done, row, column);
      Set(row, column, UpdatedEntry(idx, row, column));
    }

    /** The update loops of step `idx`: every column c > idx stored in row `idx` in turn. */
    method UpdateTrailing(idx: int)
      requires Valid() && 0 <= idx < |graph|
      modifies this, graph
      ensures Valid()
      ensures Cells == UpdateCells(old(Cells), idx, Pairs(ColumnKeys(old(Cells), idx), RowKeys(old(Cells), idx), idx))
    {
      ghost var start := Cells;
      ghost var rows := ColumnKeys(start, idx);
      ColumnView(idx);
      var todo := graph[idx].asRow.Keys;
      ghost var visited: set<int> := {};
      assert Pairs(rows, visited, idx) == {};
      assert UpdateCells(start, idx, {}) == start;
      while todo != {}
        invariant Valid() && todo + visited == RowKeys(start, idx) && todo !! visited
        invariant graph[idx].asRow == old(graph[idx].asRow) && graph[idx].asColumn == old(graph[idx].asColumn)
        invariant Cells == UpdateCells(start, idx, Pairs(rows, visited, idx))
        decreases todo
      {
        Inhabited(todo);
        var column :| column in todo;
        MoveOne(todo, visited, RowKeys(start, idx), column);
        todo := todo - {column};
        PairsGrowColumns(rows, visited, column, idx);
        if column <= idx {
          visited := visited + {column};
          continue;
        }
        assert graph[idx] != graph[column];
        UpdateColumn(idx, column, start, Pairs(rows, visited, idx), rows);
        visited := visited + {column};
      }
    }

    /**
     * `lu_self_storage`: steps 0 .. n-1 in place. Returns `Some(idx)` when
     * step `idx` raises ZeroDivisionError, leaving the matrix as the
     * earlier steps made it.
     */
    method LuSelfStorage() returns (zeroPivotAt: Option<nat>)
      requires Valid()
      modifies this, graph
      ensures Valid()
      ensures Eliminate(old(Cells), 0, |graph|) ==
        match zeroPivotAt
        case None => Factored(Cells)
        case Some(idx) => ZeroPivot(idx, Cells)
    {
      var idx := 0;
      while idx < |graph|
        invariant 0 <= idx <= |graph| && Valid()
        invariant Eliminate(old(Cells), 0, |graph|) == Eliminate(Cells, idx, |graph|)
      {
        var failed := DivideColumn(idx);
        if failed {
          return Some(idx);
        }
        UpdateTrailing(idx);
        idx := idx + 1;
      }
      return None;
    }
  }
}
