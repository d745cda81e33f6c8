/**
 * Integer matrix multiplication by dot products.
 *
 * A matrix is an array of row arrays (the C `big_int**`). `A` is stored
 * row-wise and `B` column-wise, so `B[j]` is the j-th column of the right
 * factor and `C[i][j]` receives the dot product of `A[i]` and `B[j]`.
 * Values are unbounded integers (the 64-bit `long long` is not modelled).
 */
module MatrixMultiply {

  /** The sum of `u[t] * v[t]` over `0 <= t < length`; zero when `length <= 0`. */
  function Dot(u: seq<int>, v: seq<int>, length: int): int
    requires length <= |u| && length <= |v|
    decreases length
  {
    if length <= 0 then 0 else Dot(u, v, length - 1) + u[length - 1] * v[length - 1]
  }

  /** An independent definition of the same sum, taken from the front of the vectors. */
  function SumOfProducts(u: seq<int>, v: seq<int>): int
    requires |u| == |v|
  {
    if u == [] then 0 else u[0] * v[0] + SumOfProducts(u[1..], v[1..])
  }

  /** Splitting the summation range at `k`. */
  lemma {:induction false} DotSplit(u: seq<int>, v: seq<int>, k: nat, length: nat)
    requires k <= length <= |u| && length <= |v|
    ensures Dot(u, v, length) == Dot(u, v, k) + SumOfProducts(u[k..length], v[k..length])
    decreases length - k
  {
    if k < length {
      DotSplit(u, v, k + 1, length);
      assert u[k..length][1..] == u[k + 1..length];
      assert v[k..length][1..] == v[k + 1..length];
      assert Dot(u, v, k + 1) == Dot(u, v, k) + u[k] * v[k];
    } else {
      assert u[k..length] == [];
    }
  }

  /** The loop of `dot_product` computes the textbook sum of products. */
  lemma DotIsSumOfProducts(u: seq<int>, v: seq<int>, length: nat)
    requires length <= |u| && length <= |v|
    ensures Dot(u, v, length) == SumOfProducts(u[..length], v[..length])
  {
    DotSplit(u, v, 0, length);
    assert u[0..length] == u[..length];
    assert v[0..length] == v[..length];
  }

  /** The dot product does not depend on the order of its arguments. */
  lemma {:induction false} DotCommutes(u: seq<int>, v: seq<int>, length: int)
    requires length <= |u| && length <= |v|
    ensures Dot(u, v, length) == Dot(v, u, length)
    decreases length
  {
    if length > 0 {
      DotCommutes(u, v, length - 1);
    }
  }

  /** A zero vector contributes nothing. */
  lemma {:induction false} DotWithZero(u: seq<int>, v: seq<int>, length: int)
    requires length <= |u| && length <= |v|
    requires forall t :: 0 <= t < |v| ==> v[t] == 0
    ensures Dot(u, v, length) == 0
    decreases length
  {
    if length > 0 {
      DotWithZero(u, v, length - 1);
    }
  }

  /** `dot_product`: accumulates `vec1[i] * vec2[i]` for `i < length`; reads only. */
  method DotProduct(vec1: array<int>, vec2: array<int>, length: int) returns (result: int)
    requires length <= vec1.Length && length <= vec2.Length
    ensures result == Dot(vec1[..], vec2[..], length)
    ensures length <= 0 ==> result == 0
  {
    result := 0;
    var i := 0;
    while i < length
      invariant 0 <= i <= (if length < 0 then 0 else length)
      invariant result == Dot(vec1[..], vec2[..], i)
    {
      result := result + vec1[i] * vec2[i];
      i := i + 1;
    }
  }

  /** Rows `0 .. count-1` of `M` are distinct from each other. */
  ghost predicate DistinctRows(M: array<array<int>>, count: int)
    requires count <= M.Length
    reads M
  {
    forall i, i' :: 0 <= i < i' < count ==> M[i] != M[i']
  }

  /** No row `0 .. count-1` of `M` is one of the rows `0 .. other-1` of `N`. */
  ghost predicate SeparateRows(M: array<array<int>>, count: int, N: array<array<int>>, other: int)
    requires count <= M.Length && other <= N.Length
    reads M, N
  {
    forall i, t :: 0 <= i < count && 0 <= t < other ==> M[i] != N[t]
  }

  /**
   * The inner loop of `m_multiply` for one row: `c[j] += dot(a, B[j], k)`
   * for every `j < n`, where `a` is `A[i]` and `c` is `C[i]`.
   */
  method MultiplyRow(a: array<int>, B: array<array<int>>, c: array<int>, k: int, n: int)
    requires k <= a.Length && n <= B.Length && n <= c.Length && a != c
    requires forall j :: 0 <= j < n ==> k <= B[j].Length && B[j] != c
    modifies c
    ensures forall j :: 0 <= j < c.Length ==>
      c[j] == if j < n then old(c[j]) + Dot(a[..], B[j][..], k) else old(c[j])
  {
    var j := 0;
    while j < n
      invariant 0 <= j <= (if n < 0 then 0 else n)
      invariant forall t :: 0 <= t < c.Length ==>
        c[t] == if t < j then old(c[t]) + Dot(a[..], B[t][..], k) else old(c[t])
    {
      var d := DotProduct(a, B[j], k);
      c[j] := c[j] + d;
      j := j + 1;
    }
  }

  /**
   * `m_multiply`: `C[i][j] += dot(A[i], B[j], k)` for every `i < m`, `j < n`.
   * Every other cell of `C`, and all of `A` and `B`, keep their values.
   */
  method MMultiply(A: array<array<int>>, B: array<array<int>>, C: array<array<int>>, m: int, k: int, n: int)
    requires m <= A.Length && m <= C.Length && n <= B.Length
    requires forall i :: 0 <= i < m ==> k <= A[i].Length && n <= C[i].Length
    requires forall j :: 0 <= j < n ==> k <= B[j].Length
    requires DistinctRows(C, m)
    requires SeparateRows(C, m, A, m) && SeparateRows(C, m, B, n)
    modifies set i | 0 <= i < m :: C[i]
    ensures forall i, j :: 0 <= i < m && 0 <= j < C[i].Length ==>
      C[i][j] == if j < n then old(C[i][j]) + Dot(A[i][..], B[j][..], k) else old(C[i][j])
    ensures forall i :: 0 <= i < m ==> A[i][..] == old(A[i][..])
    ensures forall j :: 0 <= j < n ==> B[j][..] == old(B[j][..])
  {
    var i := 0;
    while i < m
      invariant 0 <= i <= (if m < 0 then 0 else m)
      invariant forall r :: 0 <= r < m ==> A[r][..] == old(A[r][..])
      invariant forall c :: 0 <= c < n ==> B[c][..] == old(B[c][..])
      invariant forall r, c {:trigger C[r][c]} :: 0 <= r < m && 0 <= c < C[r].Length ==>
        C[r][c] == if r < i && c < n then old(C[r][c]) + Dot(old(A[r][..]), old(B[c][..]), k) else old(C[r][c])
    {
      MultiplyRow(A[i], B, C[i], k, n);
      i := i + 1;
    }
  }
}
