/**
 * Conversion of a dense integer matrix to compressed sparse row (CSR) form,
 * and of CSR to coordinate (COO) form.
 *
 * The dense input is read only and is given as a sequence of rows. The two
 * C structs become classes whose three arrays are sized as the C allocators
 * size them. Values are unbounded integers (32-bit `int` overflow is not
 * modelled).
 */
module CompressedFormats {

  /** One stored cell: its row, its column and its (nonzero) value. */
  datatype Entry = Entry(row: int, column: int, value: int)

  /** The dense input has at least `rows` rows of at least `columns` cells. */
  predicate Dims(input: seq<seq<int>>, rows: nat, columns: nat)
  {
    rows <= |input| && forall i :: 0 <= i < rows ==> columns <= |input[i]|
  }

  /** The nonzero cells among `row[..j]` of row `i`, left to right. */
  function RowNonzeros(row: seq<int>, i: int, j: nat): seq<Entry>
    requires j <= |row|
  {
    if j == 0 then []
    else RowNonzeros(row, i, j - 1) + (if row[j - 1] != 0 then [Entry(i, j - 1, row[j - 1])] else [])
  }

  /** The nonzero cells of the first `count` rows, in row-major order. */
  function Nonzeros(input: seq<seq<int>>, count: nat, columns: nat): seq<Entry>
    requires Dims(input, count, columns)
  {
    if count == 0 then []
    else Nonzeros(input, count - 1, columns) + RowNonzeros(input[count - 1], count - 1, columns)
  }

  /** The number of nonzero cells, as `read_standard_matrix` counts them into `nnz`. */
  function NonzeroCount(input: seq<seq<int>>, rows: nat, columns: nat): nat
    requires Dims(input, rows, columns)
  {
    |Nonzeros(input, rows, columns)|
  }

  function Values(es: seq<Entry>): (r: seq<int>)
    ensures |r| == |es| && forall k :: 0 <= k < |es| ==> r[k] == es[k].value
  {
    seq(|es|, k requires 0 <= k < |es| => es[k].value)
  }

  function Columns(es: seq<Entry>): (r: seq<int>)
    ensures |r| == |es| && forall k :: 0 <= k < |es| ==> r[k] == es[k].column
  {
    seq(|es|, k requires 0 <= k < |es| => es[k].column)
  }

  function Rows(es: seq<Entry>): (r: seq<int>)
    ensures |r| == |es| && forall k :: 0 <= k < |es| ==> r[k] == es[k].row
  {
    seq(|es|, k requires 0 <= k < |es| => es[k].row)
  }

  /** The CSR row pointers: entry `i` counts the nonzero cells of rows `0 .. i-1`. */
  function RowPointers(input: seq<seq<int>>, rows: nat, columns: nat): (r: seq<int>)
    requires Dims(input, rows, columns)
    ensures |r| == rows + 1
  {
    seq(rows + 1, i requires 0 <= i <= rows => |Nonzeros(input, i, columns)|)
  }

  /** The triples listed by parallel row, column and value sequences. */
  function Zip(rowIndex: seq<int>, columnIndex: seq<int>, values: seq<int>): (r: seq<Entry>)
    requires |rowIndex| == |columnIndex| == |values|
    ensures |r| == |values|
  {
    seq(|values|, k requires 0 <= k < |values| => Entry(rowIndex[k], columnIndex[k], values[k]))
  }

  /** `row` repeated `count` times. */
  function Repeat(row: int, count: int): (r: seq<int>)
    ensures |r| == if count <= 0 then 0 else count
    ensures forall k :: 0 <= k < |r| ==> r[k] == row
    decreases count
  {
    if count <= 0 then [] else Repeat(row, count - 1) + [row]
  }

  /** The per-entry row indices that the row pointers `ptr[0 .. count]` stand for. */
  function ExpandRows(ptr: seq<int>, count: nat): seq<int>
    requires count < |ptr|
  {
    if count == 0 then [] else ExpandRows(ptr, count - 1) + Repeat(count - 1, ptr[count] - ptr[count - 1])
  }

  /** Row pointers of a well-formed CSR matrix: start at 0, never decrease, end at `nnz`. */
  predicate WellFormedPointers(ptr: seq<int>, rows: nat, nnz: nat)
  {
    |ptr| == rows + 1 && ptr[0] == 0 && ptr[rows] == nnz &&
    forall i, i' :: 0 <= i <= i' <= rows ==> ptr[i] <= ptr[i']
  }

  // ---------------------------------------------------------------------------
  // Properties of the specification

  lemma ProjectionsAppend(es: seq<Entry>, e: Entry)
    ensures Values(es + [e]) == Values(es) + [e.value]
    ensures Columns(es + [e]) == Columns(es) + [e.column]
  {
  }

  lemma ProjectionsConcat(es: seq<Entry>, es': seq<Entry>)
    ensures Values(es + es') == Values(es) + Values(es')
    ensures Columns(es + es') == Columns(es) + Columns(es')
  {
  }

  lemma {:induction false} RowNonzerosPrefix(row: seq<int>, i: int, j: nat, j': nat)
    requires j <= j' <= |row|
    ensures RowNonzeros(row, i, j) <= RowNonzeros(row, i, j')
    decreases j'
  {
    if j < j' {
      RowNonzerosPrefix(row, i, j, j' - 1);
    }
  }

  /** The nonzero listing of fewer rows is a prefix of the listing of more rows. */
  lemma {:induction false} NonzerosPrefix(input: seq<seq<int>>, count: nat, count': nat, columns: nat)
    requires count <= count' && Dims(input, count', columns)
    ensures Dims(input, count, columns)
    ensures Nonzeros(input, count, columns) <= Nonzeros(input, count', columns)
    decreases count'
  {
    if count < count' {
      NonzerosPrefix(input, count, count' - 1, columns);
    }
  }

  /** Row pointers never decrease. */
  lemma RowPointersMonotone(input: seq<seq<int>>, rows: nat, columns: nat)
    requires Dims(input, rows, columns)
    ensures WellFormedPointers(RowPointers(input, rows, columns), rows, NonzeroCount(input, rows, columns))
  {
    var ptr := RowPointers(input, rows, columns);
    forall i, i' | 0 <= i <= i' <= rows ensures ptr[i] <= ptr[i'] {
      NonzerosPrefix(input, i, i', columns);
    }
  }

  /** Every entry of a row listing is a nonzero cell of that row, and the columns increase strictly. */
  lemma {:induction false} RowNonzerosSound(row: seq<int>, i: int, j: nat)
    requires j <= |row|
    ensures forall k :: 0 <= k < |RowNonzeros(row, i, j)| ==>
      var e := RowNonzeros(row, i, j)[k];
      e.row == i && 0 <= e.column < j && e.value == row[e.column] && e.value != 0
    ensures forall k, k' :: 0 <= k < k' < |RowNonzeros(row, i, j)| ==>
      RowNonzeros(row, i, j)[k].column < RowNonzeros(row, i, j)[k'].column
    decreases j
  {
    if j > 0 {
      RowNonzerosSound(row, i, j - 1);
    }
  }

  /** Every nonzero cell of `row[..j]` is listed. */
  lemma {:induction false} RowNonzerosComplete(row: seq<int>, i: int, j: nat, c: nat)
    requires c < j <= |row| && row[c] != 0
    ensures Entry(i, c, row[c]) in RowNonzeros(row, i, j)
    decreases j
  {
    if c < j - 1 {
      RowNonzerosComplete(row, i, j - 1, c);
    }
  }

  /** Every listed entry is a nonzero cell of the dense input. */
  lemma {:induction false} NonzerosSound(input: seq<seq<int>>, count: nat, columns: nat)
    requires Dims(input, count, columns)
    ensures forall e :: e in Nonzeros(input, count, columns) ==>
      0 <= e.row < count && 0 <= e.column < columns && e.value != 0 && input[e.row][e.column] == e.value
    decreases count
  {
    if count > 0 {
      NonzerosSound(input, count - 1, columns);
      var prev := Nonzeros(input, count - 1, columns);
      var last := RowNonzeros(input[count - 1], count - 1, columns);
      RowNonzerosSound(input[count - 1], count - 1, columns);
      forall e: Entry | e in prev + last
        ensures 0 <= e.row < count && 0 <= e.column < columns && e.value != 0 && input[e.row][e.column] == e.value
      {
        if e in last {
          var k :| 0 <= k < |last| && last[k] == e;
        }
      }
    }
  }

  /** Every nonzero cell of the first `count` rows is listed. */
  lemma {:induction false} NonzerosComplete(input: seq<seq<int>>, count: nat, columns: nat, e: Entry)
    requires Dims(input, count, columns)
    requires 0 <= e.row < count && 0 <= e.column < columns && e.value != 0 && input[e.row][e.column] == e.value
    ensures e in Nonzeros(input, count, columns)
    decreases count
  {
    var prev := Nonzeros(input, count - 1, columns);
    var last := RowNonzeros(input[count - 1], count - 1, columns);
    assert Nonzeros(input, count, columns) == prev + last;
    if e.row == count - 1 {
      RowNonzerosComplete(input[count - 1], count - 1, columns, e.column);
      assert e in last;
    } else {
      NonzerosComplete(input, count - 1, columns, e);
      assert e in prev;
    }
  }

  /** The listing is in strict row-major order. */
  lemma {:induction false} NonzerosOrdered(input: seq<seq<int>>, count: nat, columns: nat)
    requires Dims(input, count, columns)
    ensures forall k, k' :: 0 <= k < k' < |Nonzeros(input, count, columns)| ==>
      var e, e' := Nonzeros(input, count, columns)[k], Nonzeros(input, count, columns)[k'];
      e.row < e'.row || (e.row == e'.row && e.column < e'.column)
    decreases count
  {
    if count > 0 {
      NonzerosOrdered(input, count - 1, columns);
      NonzerosSound(input, count - 1, columns);
      var prev := Nonzeros(input, count - 1, columns);
      var last := RowNonzeros(input[count - 1], count - 1, columns);
      RowNonzerosSound(input[count - 1], count - 1, columns);
      forall k: int, k': int | 0 <= k < k' < |prev + last|
        ensures var e: Entry, e': Entry := (prev + last)[k], (prev + last)[k'];
          e.row < e'.row || (e.row == e'.row && e.column < e'.column)
      {
        if k < |prev| && k' >= |prev| {
          assert prev[k] in prev;
        }
      }
    }
  }

  /**
   * The listing holds exactly the nonzero cells of the dense input, and it is
   * in strict row-major order.
   */
  lemma NonzerosExact(input: seq<seq<int>>, count: nat, columns: nat)
    requires Dims(input, count, columns)
    ensures forall e :: e in Nonzeros(input, count, columns) <==>
      0 <= e.row < count && 0 <= e.column < columns && e.value != 0 && input[e.row][e.column] == e.value
    ensures forall k, k' :: 0 <= k < k' < |Nonzeros(input, count, columns)| ==>
      var e, e' := Nonzeros(input, count, columns)[k], Nonzeros(input, count, columns)[k'];
      e.row < e'.row || (e.row == e'.row && e.column < e'.column)
  {
    NonzerosSound(input, count, columns);
    NonzerosOrdered(input, count, columns);
    forall e: Entry | 0 <= e.row < count && 0 <= e.column < columns && e.value != 0 && input[e.row][e.column] == e.value
      ensures e in Nonzeros(input, count, columns)
    {
      NonzerosComplete(input, count, columns, e);
    }
  }

  /** Entry `k` of the listing belongs to row `i` exactly when `ptr[i] <= k < ptr[i+1]`. */
  lemma RowRange(input: seq<seq<int>>, rows: nat, columns: nat, i: nat, k: nat)
    requires Dims(input, rows, columns) && i < rows && k < NonzeroCount(input, rows, columns)
    ensures k < |Nonzeros(input, rows, columns)|
    ensures Nonzeros(input, rows, columns)[k].row == i <==>
      RowPointers(input, rows, columns)[i] <= k < RowPointers(input, rows, columns)[i + 1]
  {
    var ptr := RowPointers(input, rows, columns);
    RowPointersMonotone(input, rows, columns);
    ExpandRowPointers(input, rows, rows, columns);
    ExpandRowsAt(ptr, rows, i, k);
  }

  /** Position `k` of the expanded rows holds the row whose pointer range contains `k`. */
  lemma {:induction false} ExpandRowsRange(ptr: seq<int>, count: nat)
    requires count < |ptr| && ptr[0] == 0
    requires forall t, t' :: 0 <= t <= t' <= count ==> ptr[t] <= ptr[t']
    ensures |ExpandRows(ptr, count)| == ptr[count]
    ensures forall k :: 0 <= k < ptr[count] ==>
      var v := ExpandRows(ptr, count)[k]; 0 <= v < count && ptr[v] <= k < ptr[v + 1]
    decreases count
  {
    if count > 0 {
      ExpandRowsRange(ptr, count - 1);
    }
  }

  /** Position `k` of the expanded rows is `i` exactly when `ptr[i] <= k < ptr[i+1]`. */
  lemma ExpandRowsAt(ptr: seq<int>, count: nat, i: nat, k: nat)
    requires count < |ptr| && ptr[0] == 0
    requires forall t, t' :: 0 <= t <= t' <= count ==> ptr[t] <= ptr[t']
    requires i < count && k < ptr[count]
    ensures |ExpandRows(ptr, count)| == ptr[count]
    ensures ExpandRows(ptr, count)[k] == i <==> ptr[i] <= k < ptr[i + 1]
  {
    ExpandRowsRange(ptr, count);
    var v := ExpandRows(ptr, count)[k];
    if v < i {
      assert ptr[v + 1] <= ptr[i];
    } else if i < v {
      assert ptr[i + 1] <= ptr[v];
    }
  }

  /** Expanded row indices never decrease. */
  lemma ExpandRowsSorted(ptr: seq<int>, count: nat)
    requires count < |ptr| && ptr[0] == 0
    requires forall t, t' :: 0 <= t <= t' <= count ==> ptr[t] <= ptr[t']
    ensures forall k, k' :: 0 <= k <= k' < |ExpandRows(ptr, count)| ==>
      ExpandRows(ptr, count)[k] <= ExpandRows(ptr, count)[k']
  {
    ExpandRowsRange(ptr, count);
  }

  /** Expanding the row pointers of the dense input gives the row of every listed cell. */
  lemma {:induction false} ExpandRowPointers(input: seq<seq<int>>, count: nat, rows: nat, columns: nat)
    requires Dims(input, rows, columns) && count <= rows
    ensures Dims(input, count, columns)
    ensures ExpandRows(RowPointers(input, rows, columns), count) == Rows(Nonzeros(input, count, columns))
    decreases count
  {
    if count > 0 {
      var ptr := RowPointers(input, rows, columns);
      var prev := Nonzeros(input, count - 1, columns);
      var last := RowNonzeros(input[count - 1], count - 1, columns);
      assert Nonzeros(input, count, columns) == prev + last;
      assert ptr[count] - ptr[count - 1] == |last|;
      calc {
        ExpandRows(ptr, count);
        ExpandRows(ptr, count - 1) + Repeat(count - 1, |last|);
        { ExpandRowPointers(input, count - 1, rows, columns); }
        Rows(prev) + Repeat(count - 1, |last|);
        { RowNonzerosSound(input[count - 1], count - 1, columns); RowsOfOneRow(last, count - 1); }
        Rows(prev) + Rows(last);
        { RowsConcat(prev, last); }
        Rows(prev + last);
      }
    }
  }

  lemma RowsConcat(es: seq<Entry>, es': seq<Entry>)
    ensures Rows(es + es') == Rows(es) + Rows(es')
  {
  }

  lemma RowsOfOneRow(es: seq<Entry>, i: int)
    requires forall k :: 0 <= k < |es| ==> es[k].row == i
    ensures Rows(es) == Repeat(i, |es|)
  {
  }

  /**
   * Round trip: the COO triples produced from the CSR form of a dense matrix
   * list exactly its nonzero cells, in row-major order.
   */
  lemma CooTriplesAreNonzeros(input: seq<seq<int>>, rows: nat, columns: nat)
    requires Dims(input, rows, columns)
    ensures var es, rs := Nonzeros(input, rows, columns), ExpandRows(RowPointers(input, rows, columns), rows);
      |rs| == |es| && Zip(rs, Columns(es), Values(es)) == es
  {
    var es := Nonzeros(input, rows, columns);
    ExpandRowPointers(input, rows, rows, columns);
    assert Zip(Rows(es), Columns(es), Values(es)) == es;
  }

  // ---------------------------------------------------------------------------
  // The two structs and the two conversions

  /** `csr_matrix`, as `allocate_csr_matrix` sizes it. */
  class CsrMatrix {
    const columns: nat
    const rows: nat
    const nnz: nat
    const values: array<int>
    const columnIndex: array<int>
    const rowIndex: array<int>

    constructor Allocate(columns: nat, rows: nat, nnz: nat)
      ensures this.columns == columns && this.rows == rows && this.nnz == nnz
      ensures values.Length == nnz && columnIndex.Length == nnz && rowIndex.Length == rows + 1
      ensures fresh(values) && fresh(columnIndex) && fresh(rowIndex)
      ensures values != columnIndex && values != rowIndex && columnIndex != rowIndex
    {
      this.columns, this.rows, this.nnz := columns, rows, nnz;
      values := new int[nnz];
      columnIndex := new int[nnz];
      rowIndex := new int[rows + 1];
    }

    /** The arrays have the allocated sizes and the row pointers are well formed. */
    ghost predicate Valid()
      reads this, rowIndex
    {
      0 <= rows && 0 <= columns && 0 <= nnz &&
      values.Length == nnz && columnIndex.Length == nnz &&
      WellFormedPointers(rowIndex[..], rows, nnz)
    }
  }

  /** `coo_matrix`, as `allocate_coo_matrix` sizes it. */
  class CooMatrix {
    const columns: nat
    const rows: nat
    const nnz: nat
    const rowIndex: array<int>
    const columnIndex: array<int>
    const values: array<int>

    constructor Allocate(columns: nat, rows: nat, nnz: nat)
      ensures this.columns == columns && this.rows == rows && this.nnz == nnz
      ensures values.Length == nnz && columnIndex.Length == nnz && rowIndex.Length == nnz
      ensures fresh(values) && fresh(columnIndex) && fresh(rowIndex)
      ensures values != columnIndex && values != rowIndex && columnIndex != rowIndex
    {
      this.columns, this.rows, this.nnz := columns, rows, nnz;
      values := new int[nnz];
      columnIndex := new int[nnz];
      rowIndex := new int[nnz];
    }
  }

  /**
   * The inner loop of `csr_from_standard`: appends the nonzero cells of row
   * `i` at positions `start ..` of `values` and `columnIndex`, returning the
   * advanced counter. Positions before `start` are not touched.
   */
  method CompressRow(values: array<int>, columnIndex: array<int>, row: seq<int>, i: int, columns: nat, start: nat)
    returns (counter: nat)
    requires values != columnIndex && columns <= |row|
    requires start + |RowNonzeros(row, i, columns)| <= values.Length == columnIndex.Length
    modifies values, columnIndex
    ensures counter == start + |RowNonzeros(row, i, columns)|
    ensures values[..counter] == old(values[..start]) + Values(RowNonzeros(row, i, columns))
    ensures columnIndex[..counter] == old(columnIndex[..start]) + Columns(RowNonzeros(row, i, columns))
  {
    ghost var cur: seq<Entry> := [];
    ghost var valuesPrefix, columnsPrefix := values[..start], columnIndex[..start];
    counter := start;
    var j := 0;
    while j < columns
      invariant 0 <= j <= columns
      invariant cur == RowNonzeros(row, i, j)
      invariant counter == start + |cur| <= values.Length
      invariant counter + |RowNonzeros(row, i, columns)| - |cur| <= values.Length
      invariant values[..counter] == valuesPrefix + Values(cur)
      invariant columnIndex[..counter] == columnsPrefix + Columns(cur)
    {
      RowNonzerosPrefix(row, i, j + 1, columns);
      if row[j] != 0 {
        ghost var valuesBefore, columnsBefore := values[..counter], columnIndex[..counter];
        values[counter] := row[j];
        columnIndex[counter] := j;
        assert values[..counter + 1] == valuesBefore + [row[j]];
        assert columnIndex[..counter + 1] == columnsBefore + [j];
        counter := counter + 1;
        ProjectionsAppend(cur, Entry(i, j, row[j]));
        cur := cur + [Entry(i, j, row[j])];
      }
      j := j + 1;
    }
  }

  /** One pass of the row loop: `row_index[i]` gets the counter, then the row's nonzero cells are appended. */
  method FillRow(output: CsrMatrix, row: seq<int>, i: nat, columns: nat, counter: nat) returns (next: nat)
    requires output.values != output.columnIndex && i < output.rowIndex.Length
    requires output.rowIndex != output.values && output.rowIndex != output.columnIndex
    requires columns <= |row|
    requires counter + |RowNonzeros(row, i, columns)| <= output.values.Length == output.columnIndex.Length
    modifies output.rowIndex, output.values, output.columnIndex
    ensures next == counter + |RowNonzeros(row, i, columns)|
    ensures output.rowIndex[..] == old(output.rowIndex[..])[i := counter]
    ensures output.values[..next] == old(output.values[..counter]) + Values(RowNonzeros(row, i, columns))
    ensures output.columnIndex[..next] == old(output.columnIndex[..counter]) + Columns(RowNonzeros(row, i, columns))
  {
    output.rowIndex[i] := counter;
    ghost var written := output.rowIndex[..];
    next := CompressRow(output.values, output.columnIndex, row, i, columns, counter);
    assert output.rowIndex[..] == written;
  }

  /** `row_index[rows] = nnz`: the last pointer completes the row pointers written so far. */
  method ClosePointers(rowIndex: array<int>, ghost pointers: seq<int>, rows: nat, nnz: int)
    requires rowIndex.Length == |pointers| == rows + 1 && pointers[rows] == nnz
    requires rowIndex[..rows] == pointers[..rows]
    modifies rowIndex
    ensures rowIndex[..] == pointers
  {
    rowIndex[rows] := nnz;
    assert rowIndex[..rows + 1] == pointers[..rows + 1];
  }

  /**
   * `csr_from_standard`: a running counter fills `values` and `column_index`
   * with the nonzero cells in row-major order, and `row_index[i]` with the
   * counter's value when row `i` starts.
   */
  method CsrFromStandard(columns: nat, rows: nat, nnz: nat, input: seq<seq<int>>) returns (output: CsrMatrix)
    requires Dims(input, rows, columns)
    requires nnz == NonzeroCount(input, rows, columns)
    ensures fresh(output.values) && fresh(output.columnIndex) && fresh(output.rowIndex)
    ensures output.columns == columns && output.rows == rows && output.nnz == nnz
    ensures output.Valid()
    ensures output.values[..] == Values(Nonzeros(input, rows, columns))
    ensures output.columnIndex[..] == Columns(Nonzeros(input, rows, columns))
    ensures output.rowIndex[..] == RowPointers(input, rows, columns)
  {
    output := new CsrMatrix.Allocate(columns, rows, nnz);
    ghost var pointers := RowPointers(input, rows, columns);
    ghost var cur: seq<Entry> := [];
    var counter := 0;
    var i := 0;
    while i < rows
      invariant 0 <= i <= rows
      invariant cur == Nonzeros(input, i, columns)
      invariant counter == |cur| == pointers[i] <= nnz
      invariant output.values[..counter] == Values(cur)
      invariant output.columnIndex[..counter] == Columns(cur)
      invariant output.rowIndex[..i] == pointers[..i]
    {
      ghost var row := RowNonzeros(input[i], i, columns);
      NonzerosPrefix(input, i + 1, rows, columns);
      ProjectionsConcat(cur, row);
      counter := FillRow(output, input[i], i, columns, counter);
      assert output.rowIndex[..i + 1] == pointers[..i + 1];
      cur := cur + row;
      i := i + 1;
    }
    assert counter == nnz;
    ClosePointers(output.rowIndex, pointers, rows, nnz);
    RowPointersMonotone(input, rows, columns);
    assert WellFormedPointers(output.rowIndex[..], rows, nnz);
  }

  /**
   * The inner loop of `coo_from_csr` for row `i`: the entries at positions
   * `rowStart .. rowEnd - 1` are copied from position `counter` on, each
   * with row index `i`.
   */
  method ExpandRow(input: CsrMatrix, output: CooMatrix, i: int, rowStart: int, rowEnd: int, counter: nat) returns (next: nat)
    requires 0 <= rowStart <= rowEnd <= input.values.Length && rowEnd <= input.columnIndex.Length
    requires counter + (rowEnd - rowStart) <= output.values.Length
    requires output.values.Length == output.columnIndex.Length == output.rowIndex.Length
    requires output.values != output.columnIndex && output.values != output.rowIndex && output.columnIndex != output.rowIndex
    requires {output.values, output.columnIndex, output.rowIndex} !! {input.values, input.columnIndex}
    modifies output.values, output.columnIndex, output.rowIndex
    ensures next == counter + (rowEnd - rowStart)
    ensures forall t :: 0 <= t < counter ==> output.values[t] == old(output.values[t]) && output.columnIndex[t] == old(output.columnIndex[t])
    ensures forall t :: counter <= t < next ==>
      output.values[t] == input.values[rowStart + (t - counter)] && output.columnIndex[t] == input.columnIndex[rowStart + (t - counter)]
    ensures output.rowIndex[..next] == old(output.rowIndex[..counter]) + Repeat(i, rowEnd - rowStart)
  {
    next := counter;
    var j := rowStart;
    while j < rowEnd
      invariant rowStart <= j <= rowEnd && next == counter + (j - rowStart)
      invariant forall t :: 0 <= t < counter ==> output.values[t] == old(output.values[t]) && output.columnIndex[t] == old(output.columnIndex[t])
      invariant forall t :: counter <= t < next ==>
        output.values[t] == input.values[rowStart + (t - counter)] && output.columnIndex[t] == input.columnIndex[rowStart + (t - counter)]
      invariant output.rowIndex[..next] == old(output.rowIndex[..counter]) + Repeat(i, j - rowStart)
    {
      output.values[next] := input.values[j];
      output.columnIndex[next] := input.columnIndex[j];
      output.rowIndex[next] := i;
      next := next + 1;
      j := j + 1;
    }
  }

  /**
   * `coo_from_csr`: copies `values` and `column_index` position for position
   * and writes `i` as the row of every position in row `i`'s pointer range.
   */
  method CooFromCsr(input: CsrMatrix) returns (output: CooMatrix)
    requires input.Valid()
    ensures fresh(output.values) && fresh(output.columnIndex) && fresh(output.rowIndex)
    ensures output.columns == input.columns && output.rows == input.rows && output.nnz == input.nnz
    ensures output.values[..] == input.values[..]
    ensures output.columnIndex[..] == input.columnIndex[..]
    ensures output.rowIndex[..] == ExpandRows(input.rowIndex[..], input.rows)
  {
    output := new CooMatrix.Allocate(input.columns, input.rows, input.nnz);
    ghost var ptr := input.rowIndex[..];
    var counter := 0;
    var i := 0;
    while i < input.rows
      invariant 0 <= i <= input.rows
      invariant counter == ptr[i]
      invariant forall t :: 0 <= t < counter ==> output.values[t] == input.values[t] && output.columnIndex[t] == input.columnIndex[t]
      invariant output.rowIndex[..counter] == ExpandRows(ptr, i)
    {
      var rowStart := input.rowIndex[i];
      var rowEnd := input.rowIndex[i + 1];
      assert ptr[i] <= ptr[i + 1] <= input.nnz;
      counter := ExpandRow(input, output, i, rowStart, rowEnd, counter);
      assert output.rowIndex[..counter] == ExpandRows(ptr, i + 1);
      i := i + 1;
    }
    assert counter == input.nnz;
    assert output.values[..] == input.values[..];
    assert output.columnIndex[..] == input.columnIndex[..];
  }
}
