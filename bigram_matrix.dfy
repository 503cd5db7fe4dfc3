/** The earlier bigram-matrix approach (old.cpp): a 26x26 matrix of bigram
    frequencies, rows indexed by the first letter and columns by the second,
    the L1 distance between two such matrices, and bounds-checked row and
    column exchanges. Matrices are sequences of rows, passed and returned by
    value where the source updates them through a reference. */
module BigramMatrix {
  import opened CharClass
  import opened Swaps

  type Matrix = seq<seq<real>>

  /** A bigram key: two upper-case letters. */
  predicate IsBigram(key: string) {
    |key| == 2 && IsUpper(key[0]) && IsUpper(key[1])
  }

  /** The bigram for row `r` and column `c`. */
  function BigramAt(r: int, c: int): (key: string)
    requires 0 <= r < 26 && 0 <= c < 26
    ensures IsBigram(key)
  {
    AlphabetAt(r);
    AlphabetAt(c);
    [ALPHABET[r], ALPHABET[c]]
  }

  /** The frequency recorded for the bigram of row `r` and column `c`, or 0
      when the table has none. */
  function Cell(freq: map<string, real>, r: int, c: int): real
    requires 0 <= r < 26 && 0 <= c < 26
  {
    if BigramAt(r, c) in freq then freq[BigramAt(r, c)] else 0.0
  }

  /** The matrix `create_bigram_matrix` builds. */
  function BigramMatrixOf(freq: map<string, real>): (m: Matrix)
    ensures |m| == 26 && forall r :: 0 <= r < 26 ==> |m[r]| == 26
  {
    seq(26, r requires 0 <= r < 26 => seq(26, c requires 0 <= c < 26 => Cell(freq, r, c)))
  }

  /** The bigram of a key's own row and column is the key. */
  lemma BigramOfKey(key: string)
    requires IsBigram(key)
    ensures BigramAt(LetterIndex(key[0]), LetterIndex(key[1])) == key
  {
  }

  /** Distinct cells name distinct bigrams. */
  lemma BigramAtInjective(r: int, c: int, r': int, c': int)
    requires 0 <= r < 26 && 0 <= c < 26 && 0 <= r' < 26 && 0 <= c' < 26
    requires BigramAt(r, c) == BigramAt(r', c')
    ensures r == r' && c == c'
  {
    AlphabetAt(r);
    AlphabetAt(r');
    AlphabetAt(c);
    AlphabetAt(c');
    assert BigramAt(r, c)[0] == BigramAt(r', c')[0];
    assert BigramAt(r, c)[1] == BigramAt(r', c')[1];
  }

  /** `create_bigram_matrix`: starts from a 26x26 zero matrix and writes each
      entry of the table at row `key[0] - 'A'`, column `key[1] - 'A'`. The
      table's iteration order does not matter, since distinct keys land in
      distinct cells. */
  method CreateBigramMatrix(freq: map<string, real>) returns (matrix: Matrix)
    requires forall key :: key in freq ==> IsBigram(key)
    ensures matrix == BigramMatrixOf(freq)
  {
    matrix := seq(26, r => seq(26, c => 0.0));
    var remaining := freq.Keys;
    while remaining != {}
      invariant remaining <= freq.Keys
      invariant |matrix| == 26 && forall r :: 0 <= r < 26 ==> |matrix[r]| == 26
      invariant forall r, c :: 0 <= r < 26 && 0 <= c < 26 ==>
        matrix[r][c] == if BigramAt(r, c) in freq && BigramAt(r, c) !in remaining then freq[BigramAt(r, c)] else 0.0
      decreases |remaining|
    {
      var key :| key in remaining;
      var r := LetterIndex(key[0]);
      var c := LetterIndex(key[1]);
      BigramOfKey(key);
      forall r', c' | 0 <= r' < 26 && 0 <= c' < 26 && BigramAt(r', c') == key
        ensures r' == r && c' == c
      {
        BigramAtInjective(r', c', r, c);
      }
      matrix := matrix[r := matrix[r][c := freq[key]]];
      remaining := remaining - {key};
    }
    var expected := BigramMatrixOf(freq);
    forall r | 0 <= r < 26 ensures matrix[r] == expected[r] {
      assert forall c :: 0 <= c < 26 ==> matrix[r][c] == expected[r][c];
    }
  }

  /** Every table entry appears at its letters' row and column, and a cell
      with no table entry holds 0. */
  lemma BigramMatrixEntries(freq: map<string, real>, key: string)
    requires IsBigram(key)
    ensures BigramMatrixOf(freq)[LetterIndex(key[0])][LetterIndex(key[1])] ==
      if key in freq then freq[key] else 0.0
  {
    BigramOfKey(key);
  }

  // ---------------------------------------------------------------------
  // score: L1 distance
  // ---------------------------------------------------------------------

  function Abs(x: real): (r: real)
    ensures r >= 0.0 && (r == x || r == -x)
  {
    if x < 0.0 then -x else x
  }

  /** Both matrices have at least `rows` rows of at least `cols` entries. */
  predicate Covers(a: Matrix, b: Matrix, rows: int, cols: int) {
    0 <= rows <= |a| && rows <= |b| && 0 <= cols &&
    forall i :: 0 <= i < rows ==> cols <= |a[i]| && cols <= |b[i]|
  }

  /** The sum of `|a[i][j] - b[i][j]|` over the first `cols` columns of row `i`. */
  function RowDistance(a: Matrix, b: Matrix, i: int, cols: int): real
    requires 0 <= i < |a| && i < |b| && 0 <= cols <= |a[i]| && cols <= |b[i]|
    decreases cols
  {
    if cols == 0 then 0.0 else RowDistance(a, b, i, cols - 1) + Abs(a[i][cols - 1] - b[i][cols - 1])
  }

  /** The sum of `|a[i][j] - b[i][j]|` over the first `rows` rows and `cols`
      columns. */
  function Distance(a: Matrix, b: Matrix, rows: int, cols: int): real
    requires Covers(a, b, rows, cols)
    decreases rows
  {
    if rows == 0 then 0.0 else Distance(a, b, rows - 1, cols) + RowDistance(a, b, rows - 1, cols)
  }

  /** The matrices differ in row count or in first-row length. */
  predicate ShapeMismatch(a: Matrix, b: Matrix)
    requires |a| > 0 || |b| > 0
  {
    |a| != |b| || |a[0]| != |b[0]|
  }

  /** What `score` may read: the shape test reads the first rows when the row
      counts agree, and the loops read the first `|a[0]|` entries of every
      row. */
  predicate ScoreDefined(a: Matrix, b: Matrix) {
    (|a| > 0 || |b| > 0) &&
    (!ShapeMismatch(a, b) ==> Covers(a, b, |a|, |a[0]|))
  }

  /** `score`: 0.0 for matrices of different shape, otherwise the L1
      distance over `|a|` rows and `|a[0]|` columns, summed row by row. */
  method Score(a: Matrix, b: Matrix) returns (sum: real)
    requires ScoreDefined(a, b)
    ensures ShapeMismatch(a, b) ==> sum == 0.0
    ensures !ShapeMismatch(a, b) ==> sum == Distance(a, b, |a|, |a[0]|)
    ensures sum >= 0.0
  {
    if |a| != |b| || |a[0]| != |b[0]| {
      return 0.0;
    }
    sum := 0.0;
    var rows := |a|;
    var cols := |a[0]|;
    for i := 0 to rows
      invariant sum == Distance(a, b, i, cols)
    {
      for j := 0 to cols
        invariant sum == Distance(a, b, i, cols) + RowDistance(a, b, i, j)
      {
        sum := sum + Abs(a[i][j] - b[i][j]);
      }
    }
    DistanceNonNegative(a, b, rows, cols);
  }

  lemma {:induction false} RowDistanceNonNegative(a: Matrix, b: Matrix, i: int, cols: int)
    requires 0 <= i < |a| && i < |b| && 0 <= cols <= |a[i]| && cols <= |b[i]|
    ensures RowDistance(a, b, i, cols) >= 0.0
    decreases cols
  {
    if cols > 0 {
      RowDistanceNonNegative(a, b, i, cols - 1);
    }
  }

  /** The distance is never negative. */
  lemma {:induction false} DistanceNonNegative(a: Matrix, b: Matrix, rows: int, cols: int)
    requires Covers(a, b, rows, cols)
    ensures Distance(a, b, rows, cols) >= 0.0
    decreases rows
  {
    if rows > 0 {
      DistanceNonNegative(a, b, rows - 1, cols);
      RowDistanceNonNegative(a, b, rows - 1, cols);
    }
  }

  lemma {:induction false} RowDistanceSymmetric(a: Matrix, b: Matrix, i: int, cols: int)
    requires 0 <= i < |a| && i < |b| && 0 <= cols <= |a[i]| && cols <= |b[i]|
    ensures RowDistance(a, b, i, cols) == RowDistance(b, a, i, cols)
    decreases cols
  {
    if cols > 0 {
      RowDistanceSymmetric(a, b, i, cols - 1);
    }
  }

  /** The distance does not depend on the order of its arguments. */
  lemma {:induction false} DistanceSymmetric(a: Matrix, b: Matrix, rows: int, cols: int)
    requires Covers(a, b, rows, cols)
    ensures Covers(b, a, rows, cols)
    ensures Distance(a, b, rows, cols) == Distance(b, a, rows, cols)
    decreases rows
  {
    if rows > 0 {
      DistanceSymmetric(a, b, rows - 1, cols);
      RowDistanceSymmetric(a, b, rows - 1, cols);
    }
  }

  lemma {:induction false} RowDistanceSelf(a: Matrix, i: int, cols: int)
    requires 0 <= i < |a| && 0 <= cols <= |a[i]|
    ensures RowDistance(a, a, i, cols) == 0.0
    decreases cols
  {
    if cols > 0 {
      RowDistanceSelf(a, i, cols - 1);
    }
  }

  /** A matrix is at distance 0 from itself. */
  lemma {:induction false} DistanceSelf(a: Matrix, rows: int, cols: int)
    requires Covers(a, a, rows, cols)
    ensures Distance(a, a, rows, cols) == 0.0
    decreases rows
  {
    if rows > 0 {
      DistanceSelf(a, rows - 1, cols);
      RowDistanceSelf(a, rows - 1, cols);
    }
  }

  /** `score` is symmetric and vanishes on equal matrices. */
  lemma ScoreProperties(a: Matrix, b: Matrix)
    requires ScoreDefined(a, b)
    ensures ScoreDefined(b, a)
    ensures !ShapeMismatch(a, b) ==> Distance(a, b, |a|, |a[0]|) == Distance(b, a, |b|, |b[0]|)
    ensures a == b ==> !ShapeMismatch(a, b) && Distance(a, b, |a|, |a[0]|) == 0.0
  {
    if !ShapeMismatch(a, b) {
      DistanceSymmetric(a, b, |a|, |a[0]|);
      if a == b {
        DistanceSelf(a, |a|, |a[0]|);
      }
    }
  }

  // ---------------------------------------------------------------------
  // swapMatrixRows, swapMatrixColumns
  // ---------------------------------------------------------------------

  /** `swapMatrixRows`: exchanges two whole rows when both indices are rows
      of the matrix, and otherwise leaves the matrix unchanged. */
  method SwapMatrixRows(matrix: Matrix, row1: int, row2: int) returns (m: Matrix)
    ensures m == Swapped(matrix, row1, row2)
    ensures |m| == |matrix|
    ensures InRange(matrix, row1, row2) ==>
      m[row1] == matrix[row2] && m[row2] == matrix[row1] &&
      forall k :: 0 <= k < |matrix| && k != row1 && k != row2 ==> m[k] == matrix[k]
    ensures !InRange(matrix, row1, row2) ==> m == matrix
  {
    SwappedProperties(matrix, row1, row2);
    if 0 <= row1 < |matrix| && 0 <= row2 < |matrix| {
      m := matrix[row1 := matrix[row2]][row2 := matrix[row1]];
    } else {
      m := matrix;
    }
  }

  /** Both column indices are columns of the first row of a non-empty
      matrix: the test `swapMatrixColumns` makes before touching anything. */
  predicate ColumnsInRange(matrix: Matrix, col1: int, col2: int) {
    matrix != [] && InRange(matrix[0], col1, col2)
  }

  /** The matrix with columns `col1` and `col2` exchanged in every row, or
      the matrix itself when the indices fail the first-row test (rows too
      short for an index are left as they are). */
  function ColumnsSwapped(matrix: Matrix, col1: int, col2: int): Matrix {
    if ColumnsInRange(matrix, col1, col2) then
      seq(|matrix|, i requires 0 <= i < |matrix| => Swapped(matrix[i], col1, col2))
    else matrix
  }

  /** What `swapMatrixColumns` may touch: once the indices pass the
      first-row test, every row must have both columns. */
  predicate ColumnsDefined(matrix: Matrix, col1: int, col2: int) {
    ColumnsInRange(matrix, col1, col2) ==>
      forall i :: 0 <= i < |matrix| ==> InRange(matrix[i], col1, col2)
  }

  /** `swapMatrixColumns`: exchanges the two columns row by row. */
  method SwapMatrixColumns(matrix: Matrix, col1: int, col2: int) returns (m: Matrix)
    requires ColumnsDefined(matrix, col1, col2)
    ensures m == ColumnsSwapped(matrix, col1, col2)
    ensures |m| == |matrix|
    ensures ColumnsInRange(matrix, col1, col2) ==>
      forall i :: 0 <= i < |matrix| ==>
        |m[i]| == |matrix[i]| && m[i][col1] == matrix[i][col2] && m[i][col2] == matrix[i][col1]
    ensures ColumnsInRange(matrix, col1, col2) ==>
      forall i, j :: 0 <= i < |matrix| && 0 <= j < |matrix[i]| && j != col1 && j != col2 ==> m[i][j] == matrix[i][j]
    ensures !ColumnsInRange(matrix, col1, col2) ==> m == matrix
  {
    if matrix == [] || col1 < 0 || col1 >= |matrix[0]| || col2 < 0 || col2 >= |matrix[0]| {
      return matrix;
    }
    m := matrix;
    for i := 0 to |matrix|
      invariant |m| == |matrix|
      invariant forall k :: 0 <= k < i ==> m[k] == Swapped(matrix[k], col1, col2)
      invariant forall k :: i <= k < |matrix| ==> m[k] == matrix[k]
    {
      var row := m[i];
      m := m[i := row[col1 := row[col2]][col2 := row[col1]]];
    }
    forall i | 0 <= i < |matrix| {
      SwappedProperties(matrix[i], col1, col2);
    }
  }

  /** Exchanging the same two columns twice restores the matrix. */
  lemma ColumnsSwappedTwice(matrix: Matrix, col1: int, col2: int)
    requires ColumnsDefined(matrix, col1, col2)
    ensures ColumnsSwapped(ColumnsSwapped(matrix, col1, col2), col1, col2) == matrix
  {
    var once := ColumnsSwapped(matrix, col1, col2);
    if ColumnsInRange(matrix, col1, col2) {
      SwappedProperties(matrix[0], col1, col2);
      assert ColumnsInRange(once, col1, col2);
      var twice := ColumnsSwapped(once, col1, col2);
      forall i | 0 <= i < |matrix| ensures twice[i] == matrix[i] {
        SwappedTwice(matrix[i], col1, col2);
      }
    }
  }

  /** Exchanging the same two rows twice restores the matrix. */
  lemma RowsSwappedTwice(matrix: Matrix, row1: int, row2: int)
    ensures Swapped(Swapped(matrix, row1, row2), row1, row2) == matrix
  {
    SwappedTwice(matrix, row1, row2);
  }
}
