/** The two distance metrics shipped with the BK-tree header: Hamming distance and
    Levenshtein (edit) distance.  Both return the header's `ui` type, a 32-bit
    unsigned integer, and both first store the string lengths in that type. */
module Metrics {

  const U32_LIMIT: int := 0x1_0000_0000
  const INT32_LIMIT: int := 0x8000_0000

  /** The header's `ui` (`u_int32_t`). */
  type U32 = x: int | 0 <= x < 0x1_0000_0000

  /** `std::numeric_limits<ui>::max()`, the Hamming sentinel for incomparable strings. */
  const U32_MAX: U32 := 0xFFFF_FFFF

  /** Storing a `size_t` length in a `ui` keeps its low 32 bits. */
  function ToU32(n: nat): (r: U32)
    ensures (n - r) % U32_LIMIT == 0
    ensures n < U32_LIMIT ==> r == n
    ensures r <= n
  {
    n % U32_LIMIT
  }

  /** Storing a `ui` in an `int` reinterprets it as a 32-bit two's-complement value. */
  function ToInt32(x: U32): (r: int)
    ensures -INT32_LIMIT <= r < INT32_LIMIT
    ensures (r - x) % U32_LIMIT == 0
    ensures x < INT32_LIMIT ==> r == x
  {
    if x < INT32_LIMIT then x else x - U32_LIMIT
  }

  // ---------------------------------------------------------------------------
  // Hamming distance

  /** Number of positions below `n` at which `s` and `t` differ. */
  function Mismatches(s: string, t: string, n: nat): (r: nat)
    requires n <= |s| && n <= |t|
    ensures r <= n
  {
    if n == 0 then 0
    else Mismatches(s, t, n - 1) + (if s[n - 1] != t[n - 1] then 1 else 0)
  }

  /** The value `hamming_distance` computes: the sentinel when the stored lengths
      differ, else the number of mismatched positions among the first m. */
  function Hamming(s: string, t: string): (r: U32)
    ensures ToU32(|s|) != ToU32(|t|) ==> r == U32_MAX
    ensures ToU32(|s|) == ToU32(|t|) ==> r <= ToU32(|s|)
  {
    var m, n := ToU32(|s|), ToU32(|t|);
    if m != n then U32_MAX else Mismatches(s, t, m)
  }

  /** `hamming_distance::operator()`: one pass with a 32-bit counter. */
  method HammingDistance(s: string, t: string) returns (r: U32)
    ensures r == Hamming(s, t)
    ensures ToU32(|s|) != ToU32(|t|) ==> r == U32_MAX
    ensures ToU32(|s|) == ToU32(|t|) ==> r <= ToU32(|s|)
  {
    var m := ToU32(|s|);
    var n := ToU32(|t|);
    if m != n {
      return U32_MAX;
    }
    var size := if m < n then m else n;
    var counter: U32 := 0;
    var i: U32 := 0;
    while i < size
      invariant i <= size
      invariant counter == Mismatches(s, t, i)
    {
      counter := (counter + if s[i] != t[i] then 1 else 0) % U32_LIMIT;
      i := i + 1;
    }
    r := counter;
  }

  // ---------------------------------------------------------------------------
  // Edit distance

  function Min3(a: int, b: int, c: int): int
  {
    if a <= b && a <= c then a else if b <= c then b else c
  }

  function Max(a: int, b: int): int { if a < b then b else a }

  function Abs(a: int): int { if a < 0 then -a else a }

  /** The Levenshtein recurrence on the first i characters of `s` and the first
      j characters of `t`: the cheapest of inserting t[j-1], deleting s[i-1], or
      matching (or substituting) the two. */
  function Lev(s: string, t: string, i: nat, j: nat): nat
    requires i <= |s| && j <= |t|
    decreases i + j, 1
  {
    if i == 0 then j
    else if j == 0 then i
    else LevStep(s, t, i, j)
  }

  /** The recurrence on two non-empty prefixes (the cell update of the inner
      loop). */
  function LevStep(s: string, t: string, i: nat, j: nat): nat
    requires 0 < i <= |s| && 0 < j <= |t|
    decreases i + j, 0
  {
    Min3(Lev(s, t, i, j - 1) + 1,
         Lev(s, t, i - 1, j) + 1,
         Lev(s, t, i - 1, j - 1) + (if s[i - 1] == t[j - 1] then 0 else 1))
  }

  /** The edit distance is at most the larger length: substitute along the
      shorter string and insert or delete the rest. */
  lemma {:induction false} LevAtMostLonger(s: string, t: string, i: nat, j: nat)
    requires i <= |s| && j <= |t|
    ensures Lev(s, t, i, j) <= Max(i, j)
    decreases i + j
  {
    if i > 0 && j > 0 {
      LevAtMostLonger(s, t, i - 1, j - 1);
    }
  }

  /** The edit distance is at least the difference of the lengths: each
      operation changes the length by at most one. */
  lemma {:induction false} LevAtLeastDifference(s: string, t: string, i: nat, j: nat)
    requires i <= |s| && j <= |t|
    ensures i <= Lev(s, t, i, j) + j && j <= Lev(s, t, i, j) + i
    decreases i + j
  {
    if i > 0 && j > 0 {
      LevAtLeastDifference(s, t, i, j - 1);
      LevAtLeastDifference(s, t, i - 1, j);
      LevAtLeastDifference(s, t, i - 1, j - 1);
    }
  }

  /** The edit distance lies between the difference of the lengths and the
      larger length. */
  lemma LevBounds(s: string, t: string, i: nat, j: nat)
    requires i <= |s| && j <= |t|
    ensures Abs(i - j) <= Lev(s, t, i, j) <= Max(i, j)
  {
    LevAtMostLonger(s, t, i, j);
    LevAtLeastDifference(s, t, i, j);
  }

  /** The value `edit_distance` computes: the edit distance of the first
      `ToU32(|s|)` and `ToU32(|t|)` characters. */
  function EditDistance(s: string, t: string): (r: U32)
    ensures r <= Max(ToU32(|s|), ToU32(|t|))
    ensures ToU32(|s|) == 0 ==> r == ToU32(|t|)
    ensures ToU32(|t|) == 0 ==> r == ToU32(|s|)
  {
    var m, n := ToU32(|s|), ToU32(|t|);
    LevBounds(s, t, m, n);
    Lev(s, t, m, n)
  }

  /** `edit_distance`: the metric object with the matrix it keeps between
      calls.  The matrix is reallocated, zero-initialised, only when it is too
      small for the two strings; a larger one left by an earlier call is reused
      as it is. */
  class EditDistanceMetric {
    var matrix: array2<int>

    /** Cell [0, 0] is never written, so it keeps the 0 of its allocation. */
    ghost predicate Valid()
      reads this, matrix
    {
      matrix.Length0 > 0 && matrix.Length1 > 0 ==> matrix[0, 0] == 0
    }

    /** A square zero matrix of the requested size, 1 by default
        (`BK_ED_MATRIX_INITIAL_SIZE`). */
    constructor(initialSize: nat := 1)
      ensures Valid() && fresh(matrix)
      ensures matrix.Length0 == initialSize && matrix.Length1 == initialSize
    {
      matrix := new int[initialSize, initialSize]((_, _) => 0);
    }

    /** `edit_distance::operator()`: the dynamic program over the matrix; cell
        [i, j] ends up holding the edit distance of the first i characters of
        `s` and the first j characters of `t`. */
    method Distance(s: string, t: string) returns (r: U32)
      requires Valid()
      modifies this, matrix
      ensures Valid()
      ensures r == EditDistance(s, t)
      ensures ToU32(|s|) == 0 ==> r == ToU32(|t|)
      ensures ToU32(|t|) == 0 ==> r == ToU32(|s|)
    {
      var m := ToU32(|s|);
      var n := ToU32(|t|);
      if m == 0 || n == 0 {
        return m + n;
      }
      if matrix.Length0 <= m || matrix.Length1 <= n {
        matrix := new int[m + 1, n + 1]((_, _) => 0);
      }
      FillTable(matrix, s, t, m, n);
      LevBounds(s, t, m, n);
      r := matrix[m, n];
    }
  }

  /** The three loops of `edit_distance::operator()`: column 0, row 0, then
      the remaining columns one by one. */
  method FillTable(matrix: array2<int>, s: string, t: string, m: nat, n: nat)
    requires 1 <= m <= |s| && 1 <= n <= |t|
    requires matrix.Length0 > m && matrix.Length1 > n && matrix[0, 0] == 0
    modifies matrix
    ensures ColumnsDone(matrix, s, t, m, n, n + 1)
  {
    var i := 1;
    while i <= m
      invariant 1 <= i <= m + 1
      invariant matrix[0, 0] == 0
      invariant forall i' :: 1 <= i' < i ==> matrix[i', 0] == i'
    {
      matrix[i, 0] := i;
      i := i + 1;
    }
    var j := 1;
    while j <= n
      invariant 1 <= j <= n + 1
      invariant forall i' :: 0 <= i' <= m ==> matrix[i', 0] == i'
      invariant forall j' :: 1 <= j' < j ==> matrix[0, j'] == j'
    {
      matrix[0, j] := j;
      j := j + 1;
    }
    j := 1;
    while j <= n
      invariant 1 <= j <= n + 1
      invariant ColumnsDone(matrix, s, t, m, n, j)
      invariant RowZeroFrom(matrix, n, j)
    {
      FillColumn(matrix, s, t, m, n, j);
      j := j + 1;
    }
  }

  /** Columns 0 .. j-1 of the table hold the edit distances of the prefixes. */
  ghost predicate ColumnsDone(matrix: array2<int>, s: string, t: string, m: nat, n: nat, j: nat)
    reads matrix
  {
    m <= |s| && n <= |t| && matrix.Length0 > m && matrix.Length1 > n && j <= n + 1 &&
    forall i', j' {:trigger matrix[i', j']} :: 0 <= i' <= m && 0 <= j' < j ==> matrix[i', j'] == Lev(s, t, i', j')
  }

  /** Row 0 of the table holds its column index in columns j .. n. */
  ghost predicate RowZeroFrom(matrix: array2<int>, n: nat, j: nat)
    reads matrix
  {
    matrix.Length0 > 0 && matrix.Length1 > n &&
    forall j' :: j <= j' <= n ==> matrix[0, j'] == j'
  }

  /** The inner loop of the dynamic program: fills column j, rows 1 .. m. */
  method FillColumn(matrix: array2<int>, s: string, t: string, m: nat, n: nat, j: nat)
    requires 1 <= j <= n
    requires ColumnsDone(matrix, s, t, m, n, j) && RowZeroFrom(matrix, n, j)
    modifies matrix
    ensures ColumnsDone(matrix, s, t, m, n, j + 1) && RowZeroFrom(matrix, n, j + 1)
  {
    var i := 1;
    while i <= m
      invariant 1 <= i <= m + 1
      invariant ColumnsDone(matrix, s, t, m, n, j) && RowZeroFrom(matrix, n, j)
      invariant forall i' {:trigger matrix[i', j]} :: 0 <= i' < i ==> matrix[i', j] == Lev(s, t, i', j)
    {
      assert matrix[i, j - 1] == Lev(s, t, i, j - 1);
      assert matrix[i - 1, j] == Lev(s, t, i - 1, j);
      assert matrix[i - 1, j - 1] == Lev(s, t, i - 1, j - 1);
      matrix[i, j] := Min3(matrix[i, j - 1] + 1,
                           matrix[i - 1, j] + 1,
                           matrix[i - 1, j - 1] + (if s[i - 1] == t[j - 1] then 0 else 1));
      i := i + 1;
    }
  }
}
