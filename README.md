# Sparse matrix kernels: a verified model

This project models four small numerical kernels and proves properties of
them in Dafny.

- **Mirrored sparse matrix with in-place LU** (`Task4.py`, module `SparseLu`):
  - Every index has a `Vertex` holding a row view `as_row` and a column view `as_column`.
  - `__setitem__` writes both views, so they always describe the same matrix.
  - `lu_self_storage` runs right-looking Doolittle elimination without pivoting, directly on those maps. It divides the column below the pivot, then updates the trailing block and creates fill-in.
- **Cuthill–McKee ordering** (`Task5.py`, module `CuthillMckee`, plus module `StableSort`):
  - A graph is a list of `Vertex` objects. Each keeps its row as an insertion-ordered dictionary `adj`.
  - The ordering sorts the list stably by degree. It then runs a breadth-first search from every vertex not yet visited, and makes the visit order the new list.
  - The search looks neighbours up as `self.vertices[i]`, where `i` is a key of the popped vertex. That is the vertex at *position* `i` of the list after the sort, not the vertex whose id is `i`. The model therefore specifies the search on positions of the sorted list, in `BfsFrom` and `Scan`.
  - `visited` flags are never reset, so a second call returns an empty list.
- **Dense → CSR → COO** (`Task3.c`, module `CompressedFormats`):
  - `csr_from_standard` compresses a dense integer matrix into row pointers, column indices and values.
  - `coo_from_csr` expands the row pointers into one row index per entry.
- **Matrix multiply** (`Task1.c`, module `MatrixMultiply`):
  - `dot_product` accumulates a sum of products.
  - `m_multiply` adds `A[i]·B[j]` into `C[i][j]`, with `B` stored column-wise.

**How the model is written:**
- Mutable objects are Dafny classes with `modifies` frames. The C arrays are Dafny arrays.
- Every loop of the source is a `while` loop with invariants. Each method is proved against a specification function: `Dot`, `Nonzeros`/`RowPointers`/`ExpandRows`, `Stored`/`RowMajor`/`Eliminate`, `Rows`/`DenseTriples`/`Scan`.
- The properties the source promises are lemmas about those functions.

## Model

| member | source | states |
|---|---|---|
| MatrixMultiply.DotProduct | Task1.c:8-14 | the result is `Dot(vec1, vec2, length)`, the sum of `vec1[t]*vec2[t]` over `t < length`; a length of zero or less gives 0; the vectors are only read |
| MatrixMultiply.DotIsSumOfProducts | Task1.c:8-14 | the loop's running sum equals an independent front-to-back definition of the sum of products |
| MatrixMultiply.DotSplit | Task1.c:10-12 | splitting the summation range at any `k` splits the sum |
| MatrixMultiply.DotCommutes | Task1.c:11 | the dot product is symmetric in its two vectors |
| MatrixMultiply.DotWithZero | Task1.c:9-13 | a zero vector gives a zero dot product |
| MatrixMultiply.MultiplyRow | Task1.c:20-22 | for one row `i`, every `C[i][j]` with `j < n` gains `dot(A[i], B[j], k)` exactly once; other cells keep their value |
| MatrixMultiply.MMultiply | Task1.c:18-24 | every `C[i][j]` with `i < m`, `j < n` gains `dot(A[i], B[j], k)` exactly once; every other cell of `C` and all of `A` and `B` are unchanged |
| CompressedFormats.CsrMatrix.Allocate | Task3.c:26-37 | `csr_matrix` as `allocate_csr_matrix` sizes it: `nnz` values and column indices, `rows + 1` row pointers, three distinct fresh arrays |
| CompressedFormats.CooMatrix.Allocate | Task3.c:39-50 | `coo_matrix` as `allocate_coo_matrix` sizes it: three distinct fresh arrays of `nnz` entries |
| CompressedFormats.CompressRow | Task3.c:58-66 | the inner loop appends exactly the nonzero cells of row `i`, values and columns, after position `start`, and advances the counter by their number; earlier entries are kept |
| CompressedFormats.FillRow | Task3.c:56-66 | one pass of the row loop: row `i`'s pointer is the counter on entry, its nonzero cells are appended after it, and the counter advances by their number; no other pointer changes |
| CompressedFormats.ClosePointers | Task3.c:69 | writing `nnz` as the last row pointer completes the pointers written by the loop |
| CompressedFormats.CsrFromStandard | Task3.c:52-71 | given `nnz` equal to the nonzero count as `read_standard_matrix` computes it, `values`/`column_index` list the nonzero cells in row-major order, `row_index[i]` counts the nonzero cells of rows before `i`, and `row_index[rows] == nnz`; the pointers are well formed |
| CompressedFormats.RowPointersMonotone | Task3.c:54-57 | row pointers start at 0, never decrease and end at the nonzero count |
| CompressedFormats.NonzerosSound | Task3.c:58-65 | every listed entry is a nonzero cell `input[row][column]` inside the matrix |
| CompressedFormats.NonzerosComplete | Task3.c:58-65 | every nonzero cell of the dense input is listed (zero cells are the only ones skipped) |
| CompressedFormats.NonzerosOrdered | Task3.c:56-66 | the listing is in strict row-major order, so within a row the column indices strictly increase |
| CompressedFormats.NonzerosExact | Task3.c:56-66 | an entry is listed if and only if it is a nonzero cell, and the listing is strictly row-major |
| CompressedFormats.RowRange | Task3.c:57-65 | the entry at position `k` belongs to row `i` if and only if `row_index[i] <= k < row_index[i+1]` |
| CompressedFormats.RowNonzerosSound | Task3.c:58-64 | within one row, listed entries are nonzero cells of that row with strictly increasing columns inside `[0, columns)` |
| CompressedFormats.RowNonzerosComplete | Task3.c:59-61 | within one row, every nonzero cell is listed |
| CompressedFormats.ExpandRow | Task3.c:79-84 | the inner loop for row `i`: the CSR entries `row_start .. row_end-1` are copied, values and columns, from the counter on, each with row index `i`; the counter advances by their number and earlier entries are kept |
| CompressedFormats.CooFromCsr | Task3.c:73-87 | `rows`, `columns` and `nnz` are kept, `values` and `column_index` are copied position for position, and `row_index` is the expansion of the CSR row pointers |
| CompressedFormats.ExpandRowsAt | Task3.c:76-83 | COO `row_index[k] == i` if and only if `csr.row_index[i] <= k < csr.row_index[i+1]` |
| CompressedFormats.ExpandRowsSorted | Task3.c:76-83 | COO row indices never decrease |
| CompressedFormats.ExpandRowPointers | Task3.c:56-57 | expanding the row pointers of a dense input gives the row of every listed cell |
| CompressedFormats.CooTriplesAreNonzeros | Task3.c:52-87 | round trip: the COO triples `(row_index[k], column_index[k], values[k])` are exactly the nonzero cells of the dense input, in row-major order |
| SparseLu.Vertex.constructor | Task4.py:3-6 | a new vertex has two empty views |
| SparseLu.NewVertices | Task4.py:13 | `n` distinct new vertices with empty views |
| SparseLu.SparseMatrixGraph.Get | Task4.py:20-22 | `__getitem__` returns the stored value of the cell, or 0.0 when it is not stored |
| SparseLu.SparseMatrixGraph.Set | Task4.py:24-27 | `__setitem__` writes the value into the row view of `row` and the column view of `column`; the matrix changes in that cell only and the mirror invariant is kept |
| SparseLu.RepresentsUpdate | Task4.py:24-27 | writing a cell into both views keeps them a faithful picture of the matrix |
| SparseLu.SparseMatrixGraph.ColumnView | Task4.py:39 | the keys of `as_column` of `idx` are the rows stored in column `idx`, and the keys of `as_row` are the columns stored in row `idx` |
| SparseLu.SparseMatrixGraph.StoreRow | Task4.py:16-18 | one row of the constructor stores exactly its cells whose magnitude exceeds EPSILON |
| SparseLu.SparseMatrixGraph.constructor | Task4.py:12-18 | `__init__` builds fresh vertices, one per row, and stores exactly the cells whose magnitude exceeds EPSILON, with their input values; the mirror invariant holds |
| SparseLu.StoredReadsBack | Task4.py:13-22 | after construction a cell reads back its input value where the magnitude exceeds EPSILON, and 0.0 elsewhere |
| SparseLu.SparseMatrixGraph.Iter | Task4.py:32-35 | `__iter__` yields the n·n cells in row-major order, as `__getitem__` reads them |
| SparseLu.RowMajorAt | Task4.py:32-35 | the yielded sequence has `n·n` entries and entry `r·n + c` is cell `(r, c)` |
| SparseLu.SparseMatrixGraph.DivideColumn | Task4.py:39-42 | the division loop divides every stored cell below the pivot by the pivot; it fails, changing nothing, exactly when the pivot reads 0.0 and a cell below it is stored |
| SparseLu.SparseMatrixGraph.DivideVisit | Task4.py:40-42 | one pass of the division loop: rows at or above the pivot are skipped, a row below it is divided, or ZeroDivisionError is raised with the matrix as it was |
| SparseLu.SparseMatrixGraph.UpdatedEntry | Task4.py:52-56 | the innermost loop's new value: the product of the two factors negated if the cell's magnitude is at most EPSILON, otherwise subtracted from it |
| SparseLu.SparseMatrixGraph.UpdateEntry | Task4.py:52-56 | one update writes that value into cell `(row, column)` and keeps the mirror invariant |
| SparseLu.SparseMatrixGraph.UpdateColumn | Task4.py:48-56 | the inner update loop visits every stored row below the pivot for one column; row `idx`'s views do not change |
| SparseLu.SparseMatrixGraph.UpdateTrailing | Task4.py:44-56 | the update loops change exactly the cells `(r, c)` with `r, c > idx`, `(r, idx)` and `(idx, c)` stored |
| SparseLu.SparseMatrixGraph.LuSelfStorage | Task4.py:37-56 | the matrix ends as the elimination function `Eliminate` prescribes, or at the step whose division raises ZeroDivisionError, with the matrix as the earlier steps left it |
| SparseLu.Eliminate | Task4.py:38-42 | a zero-pivot outcome names a step within range at which the division fails |
| SparseLu.StepKeys | Task4.py:53-56 | after a step a cell is stored if and only if it was stored before or both of its factors `(r, idx)` and `(idx, c)` were stored, with `r, c > idx` |
| SparseLu.StepFrame | Task4.py:39-56 | a step changes no stored cell outside `(r, idx)` with `r > idx` and `(r, c)` with `r, c > idx` |
| SparseLu.StepDividesColumn | Task4.py:39-42 | below the pivot a step stores the old value divided by the nonzero pivot |
| SparseLu.StepUpdatesTrailing | Task4.py:44-56 | each trailing cell whose two factors are stored loses their product, or becomes its negation if the cell was within EPSILON of zero |
| SparseLu.StepUpdatesCell | Task4.py:52-56 | the same rule for one trailing cell |
| SparseLu.StepPreservesBand | Task4.py:44-56 | a step creates no fill-in outside the band of the matrix |
| SparseLu.EliminateGrowsKeys | Task4.py:24-27 | no key is ever removed, and new keys appear only beyond the step at which they are created |
| SparseLu.EliminateKeepsSettled | Task4.py:38-56 | cells in rows at or above the current step, or in earlier columns, are never changed again |
| SparseLu.EliminatePreservesBand | Task4.py:37-56 | the whole elimination keeps a banded matrix within its band |
| SparseLu.FactorsTwoByTwo | Task4.py:37-56 | `[[2, 1], [4, 3]]` is overwritten by `L = [[1, 0], [2, 1]]` below the diagonal and `U = [[2, 1], [0, 1]]` on and above it |
| SparseLu.ZeroPivotTwoByTwo | Task4.py:39-42 | `[[0, 1], [1, 0]]` raises ZeroDivisionError at the first step and is left unchanged |
| StableSort.SortBySorted | Task5.py:71 | the sort leaves keys in ascending order |
| StableSort.SortByPermutes | Task5.py:71 | the sort is a permutation of its input |
| StableSort.SortByStable | Task5.py:62 | elements with equal keys keep their relative order |
| StableSort.InsertKeepsGroups | Task5.py:62 | inserting one element adds it to the end of its key's group and leaves other groups unchanged |
| CuthillMckee.Vertex.constructor | Task5.py:9-12 | a new vertex has its id, an empty dictionary and `visited == False` |
| CuthillMckee.Vertex.DegreeCountsKeys | Task5.py:14-15 | `get_degree` is the number of stored keys |
| CuthillMckee.Vertex.Get | Task5.py:20-21 | `__getitem__` returns the stored value, or 0.0 for a missing key; 0.0 is read exactly when the key is missing |
| CuthillMckee.Vertex.Set | Task5.py:23-26 | `__setitem__` makes the key read back the value and leaves other keys as they were; a zero value leaves no entry behind (the test is `abs(value) <= 0`, not EPSILON); an existing key keeps its insertion position |
| CuthillMckee.StoreValue | Task5.py:23-26 | the key is stored exactly when the value is nonzero, and every key reads as the write prescribes |
| CuthillMckee.StorePreserves | Task5.py:23-26 | the dictionary and its insertion order stay in agreement after a write |
| CuthillMckee.Vertex.Delete | Task5.py:28-29 | `__delitem__` removes a stored key from the dictionary and its order and lowers the degree by one |
| CuthillMckee.NewVertices | Task5.py:37 | `size` distinct new vertices with ids `0 .. size-1`, empty and not visited |
| CuthillMckee.SparseGraphFormat.constructor | Task5.py:36-41 | the dictionaries are those `Rows` builds by writing every triple at `(row, column)` and at `(column, row)`, in order; vertices are fresh, not visited, with ids equal to their positions |
| CuthillMckee.WriteAll | Task5.py:39-41 | the constructor's loop writes the triples in order and sets no `visited` flag |
| CuthillMckee.WriteTriple | Task5.py:40-41 | one triple is written into both mirrored entries |
| CuthillMckee.RowsLookup | Task5.py:39-41 | after construction, `(p, q)` holds the value of the last triple written to `(p, q)` or `(q, p)`, or 0.0 if there is none |
| CuthillMckee.RowsSymmetric | Task5.py:39-41 | after construction, mirrored entries hold equal values, so the key sets are symmetric |
| CuthillMckee.RowsConsistent | Task5.py:39-41 | every dictionary the constructor builds agrees with its key order, and each key names a vertex |
| CuthillMckee.SparseGraphFormat.FromDenseFormat | Task5.py:43-54 | `from_dense_format` makes one vertex per row and writes the kept cells as triples |
| CuthillMckee.DenseInitializer | Task5.py:45-52 | the loops collect the cells whose magnitude exceeds EPSILON as triples, in row-major order |
| CuthillMckee.DenseTriplesComplete | Task5.py:47-52 | every cell whose magnitude exceeds EPSILON is collected |
| CuthillMckee.DenseRoundTrip | Task5.py:43-54 | for a symmetric square input, the graph built by `from_dense_format` reads back each input cell whose magnitude exceeds EPSILON, and 0.0 elsewhere |
| CuthillMckee.Neighbours | Task5.py:62 | neighbours are positions of the list, taken through the popped vertex's keys |
| CuthillMckee.DegreeOrder | Task5.py:71 | the sort is a permutation of the positions that orders the degrees ascending |
| CuthillMckee.SortByDistinct | Task5.py:62 | sorting keys without repetitions gives the same keys, without repetitions |
| CuthillMckee.EnqueueAdds | Task5.py:63-66 | the neighbour loop marks every neighbour, keeps the old queue as a prefix, and appends exactly the newly marked positions, each once |
| CuthillMckee.EnqueueExact | Task5.py:62-66 | for neighbours without repetitions, the queue grows by exactly the neighbours not visited before, in the order of the sorted neighbour list |
| CuthillMckee.PopStep | Task5.py:59-66 | one pass of the queue loop keeps the queue without repetitions and within the visited set, and either marks a new position or shortens the queue |
| CuthillMckee.PopMeasure | Task5.py:63-66 | the neighbour loop either marks a new position or enqueues nothing |
| CuthillMckee.BfsFromOrders | Task5.py:56-66 | a search appends, without repetition, the queued positions and exactly the positions it newly marks |
| CuthillMckee.ScanOrders | Task5.py:73-75 | the loop over the vertex list appends, without repetition, exactly the positions it marks |
| CuthillMckee.CuthillMckeeVisitsAll | Task5.py:73-75 | after the loop every position is visited |
| CuthillMckee.CuthillMckeePermutes | Task5.py:56-77 | with no vertex visited beforehand, the ordering is a permutation of all positions |
| CuthillMckee.CuthillMckeeSecondCall | Task5.py:73-77 | with every vertex already visited, the ordering is empty |
| CuthillMckee.SparseGraphFormat.Mark | Task5.py:57 | `v.visited = True` marks one position and changes nothing else |
| CuthillMckee.SparseGraphFormat.EnqueueNeighbours | Task5.py:63-66 | the neighbour loop on objects does what `Enqueue` does on positions |
| CuthillMckee.SparseGraphFormat.Visit | Task5.py:62-66 | one popped vertex: its neighbours are sorted by degree and the unvisited ones are marked and enqueued; no dictionary, key list or degree changes |
| CuthillMckee.SparseGraphFormat.BfsStep | Task5.py:59-66 | one pass of the queue loop preserves what `BfsFrom` computes and makes progress; dictionaries stay as they were |
| CuthillMckee.SparseGraphFormat.Bfs | Task5.py:56-66 | `_bfs` marks its root and appends what `BfsFrom` computes from it; dictionaries stay as they were |
| CuthillMckee.SparseGraphFormat.ScanStep | Task5.py:73-75 | one pass of the loop over the list: a visited vertex is skipped, otherwise a search starts from it; dictionaries stay as they were |
| CuthillMckee.SparseGraphFormat.ScanAll | Task5.py:73-75 | the loop over the list appends the positions `Scan` computes and marks them; the list and every dictionary stay as they were |
| CuthillMckee.SparseGraphFormat.SortByDegree | Task5.py:71 | `self.vertices.sort()` reorders the list by `DegreeOrder` and keeps the same vertices, each once, with every key still a position; each vertex keeps its dictionary and `visited` flag, and the sorted list is again a valid graph |
| CuthillMckee.PermuteUnique | Task5.py:71 | reordering by a permutation of the positions keeps the same vertices, each once |
| CuthillMckee.PermuteVisited | Task5.py:71 | reordering keeps "no vertex visited" and "every vertex visited" |
| CuthillMckee.OrderingOfVertices | Task5.py:73-77 | with no vertex visited beforehand, the new list holds every old vertex exactly once; with every vertex visited, it is empty |
| CuthillMckee.SparseGraphFormat.Search | Task5.py:73-75 | the loop over the sorted list returns the vertices at the positions `Scan` computes and marks every vertex; the list and the dictionaries stay as they were; with nothing visited beforehand every vertex is returned once, with everything visited nothing is |
| CuthillMckee.SparseGraphFormat.Adopt | Task5.py:77 | `self.vertices = ordering`; when the ordering holds as many distinct vertices as the list, the new list is again a valid graph |
| CuthillMckee.SparseGraphFormat.CollectOrdering | Task5.py:73-77 | the searches and the final assignment: the new list is the vertices at the positions `Scan` computes, every vertex is visited and keeps its dictionary; with nothing visited beforehand the new list is a valid graph holding every old vertex once |
| CuthillMckee.SparseGraphFormat.CuthillMckeeOrdering | Task5.py:68-78 | the whole call: the sort, then the ordering that `Scan` computes on the sorted list, returned and stored as the new list. Afterwards every vertex is visited and keeps its dictionary. A first call, with no vertex visited, returns a permutation of the old vertices, each once, and leaves a valid graph, so the call can be repeated. A call with every vertex visited returns an empty list |

## Left out

- Integer overflow: `long long` in `Task1.c` and `int` in `Task3.c` are unbounded integers here.
- Floating point: values in `Task4.py` and `Task5.py` are exact reals. `EPSILON` is the real constant `1e-14`. The models do not cover NaN, infinities, rounding, or values of other Python types (the `any` of the triple type).
- Errors of the Python code are preconditions rather than modelled error paths:
  - IndexError: an index outside the vertex list in either constructor, or a kept cell beyond the last row.
  - KeyError: `__delitem__` of a missing key.
  - Python's negative indices.
  - The zero-pivot ZeroDivisionError of `lu_self_storage` *is* modelled, as an outcome.
- SparseLu.SparseMatrixGraph.LuSelfStorage: its loops visit dictionary keys in an unspecified order, not Python's insertion order. Every order gives the same result.
- SparseLu.SparseMatrixGraph.LuSelfStorage: it does not state that the result multiplies back to the input (L·U = A). What is proved is the cell-by-cell step rule, the frame of each step, key growth, and a worked 2×2 factorisation.
- CuthillMckee.SparseGraphFormat.CuthillMckeeOrdering: the permutation property is stated for a list with no vertex visited, and the empty result for a list with every vertex visited. A list with only some vertices visited is covered only by the position-level `Scan` statement.
- CuthillMckee.SparseGraphFormat.CuthillMckeeOrdering: validity of the new list (every key names a position) is promised only when no vertex was visited beforehand. A partial ordering can be shorter than the keys it holds. The dictionaries are kept per position of the sorted list, not per vertex object.
- MatrixMultiply.MMultiply: requires the rows of `C` to be distinct arrays, and distinct from every row of `A` and `B`. `m_multiply` accepts aliased rows; there it would read cells it has already overwritten, and the model does not describe that.
- MatrixMultiply.MultiplyRow: requires the row of `C` it writes to be distinct from the rows of `A` and `B` it reads, for the same reason as `MMultiply`.
- CuthillMckee.Vertex.Greater: `__gt__` is a predicate without a contract. The sort is specified by the degree key that `__gt__` compares, through `DegreeKey` and `StableSort.SortBy`.
- The `queue.Queue` of `Task5.py` is a local sequence. Its thread safety is not modelled, and neither is the fact that the shared queue is left empty after each search.
- Not modelled at all:
  - the `__repr__` methods;
  - every `main` function;
  - input reading and printing: `read_standard_matrix`'s `scanf` (only its way of counting `nnz`, Task3.c:143-147, is used, as the precondition of `CsrFromStandard`) and the `print_*` functions;
  - `malloc`/`free` and the `deallocate_*` functions. The `allocate_*` functions appear only as array sizes.
- `Task2.c` (Gaussian elimination on doubles with `rand()` input and `clock()` timing) is not part of this model.
