/**
 * `convert_to_transformation`: every row of the transition matrix divided by
 * its count, with a count below one read as one. Python's floating-point
 * division is modelled by exact division of reals.
 */
module Transformation {
  import opened Wrappers
  import opened Transitions

  /** `matrix[x][y]` after conversion: the share of row `x`'s transitions that went to `y`. */
  type Shares<C> = map<C, map<C, real>>

  /** `max(count[row], 1)`: the divisor of a row, never zero. */
  function Denominator(count: int): (r: int)
    ensures r >= 1 && r >= count
    ensures count >= 1 ==> r == count
    ensures count <= 1 ==> r == 1
  {
    if count > 1 then count else 1
  }

  /** The divisions only look up the count of a row that has at least one entry. */
  predicate Convertible<C(==)>(matrix: Table<C>, count: Counts<C>) {
    forall a :: a in matrix && matrix[a] != map[] ==> a in count
  }

  /** One row divided by `d`. */
  function DividedRow<C(==)>(row: map<C, int>, d: int): (r: map<C, real>)
    requires d >= 1
  {
    map b | b in row :: row[b] as real / d as real
  }

  /** Row `a` after conversion; a row without a count is empty and stays empty. */
  function ConvertedRow<C(==)>(matrix: Table<C>, count: Counts<C>, a: C): map<C, real>
    requires a in matrix
  {
    if a in count then DividedRow(matrix[a], Denominator(count[a])) else map[]
  }

  /** The whole matrix after conversion. */
  function Converted<C(==)>(matrix: Table<C>, count: Counts<C>): (r: Shares<C>)
    ensures r.Keys == matrix.Keys
    ensures forall a :: a in r && a in count ==> r[a].Keys == matrix[a].Keys
  {
    map a | a in matrix :: ConvertedRow(matrix, count, a)
  }

  /** KeyError: a row with entries has no count. */
  datatype ConvertError<C> = MissingCount(row: C)

  /** The inner loop: one row's entries, each divided by `d`. */
  method DivideRow<C(==)>(row: map<C, int>, d: int) returns (r: map<C, real>)
    requires d >= 1
    ensures r == DividedRow(row, d)
  {
    r := map[];
    var left := row.Keys;
    ghost var done: set<C> := {};
    while left != {}
      invariant left <= row.Keys && done == row.Keys - left
      invariant r == map b | b in done :: row[b] as real / d as real
      decreases left
    {
      var col :| col in left;
      r := r[col := row[col] as real / d as real];
      left, done := left - {col}, done + {col};
    }
  }

  /**
   * `convert_to_transformation(matrix, count)`: every row divided by the
   * larger of its count and one, or the error Python raises for a row that
   * has entries but no count. Which such row is reported depends on the
   * dict's iteration order; any one of them may be.
   */
  method ConvertToTransformation<C(==)>(matrix: Table<C>, count: Counts<C>)
    returns (r: Result<Shares<C>, ConvertError<C>>)
    ensures r.Ok? <==> Convertible(matrix, count)
    ensures r.Ok? ==> r.value == Converted(matrix, count)
    ensures r.Err? ==> r.error.row in matrix && matrix[r.error.row] != map[] && r.error.row !in count
  {
    var result: Shares<C> := map[];
    var left := matrix.Keys;
    ghost var done: set<C> := {};
    while left != {}
      invariant left <= matrix.Keys && done == matrix.Keys - left
      invariant forall a :: a in done && matrix[a] != map[] ==> a in count
      invariant result == map a | a in done :: ConvertedRow(matrix, count, a)
      decreases left
    {
      var rowClass :| rowClass in left;
      var row := matrix[rowClass];
      if row != map[] && rowClass !in count {
        return Err(MissingCount(rowClass));
      }
      var converted: map<C, real> := map[];
      if rowClass in count {
        converted := DivideRow(row, Denominator(count[rowClass]));
      }
      result := result[rowClass := converted];
      left, done := left - {rowClass}, done + {rowClass};
    }
    return Ok(result);
  }

  /** Conversion keeps the rows, and the columns of every row it can divide. */
  lemma ConvertedKeys<C>(matrix: Table<C>, count: Counts<C>, a: C)
    requires Convertible(matrix, count) && a in matrix
    ensures Converted(matrix, count).Keys == matrix.Keys
    ensures Converted(matrix, count)[a].Keys == matrix[a].Keys
  {
  }

  /** Multiplying a converted entry by its row's divisor gives back the count it came from. */
  lemma RoundTrip<C>(matrix: Table<C>, count: Counts<C>, a: C, b: C)
    requires a in matrix && b in matrix[a] && a in count
    ensures a in Converted(matrix, count) && b in Converted(matrix, count)[a]
    ensures Converted(matrix, count)[a][b] * Denominator(count[a]) as real == matrix[a][b] as real
  {
  }

  /** A row whose count is at most one is left as it was. */
  lemma SmallCountKeepsRow<C>(matrix: Table<C>, count: Counts<C>, a: C, b: C)
    requires a in matrix && b in matrix[a] && a in count && count[a] <= 1
    ensures a in Converted(matrix, count) && b in Converted(matrix, count)[a]
    ensures Converted(matrix, count)[a][b] == matrix[a][b] as real
  {
  }

  /** An all-zero row stays all zero. */
  lemma ZeroRowStaysZero<C>(matrix: Table<C>, count: Counts<C>, a: C)
    requires Convertible(matrix, count) && a in matrix
    requires forall b :: b in matrix[a] ==> matrix[a][b] == 0
    ensures a in Converted(matrix, count)
    ensures forall b :: b in Converted(matrix, count)[a] ==> Converted(matrix, count)[a][b] == 0.0
  {
  }

  /** An entry between zero and its row's count becomes a share between zero and one. */
  lemma UnitInterval<C>(matrix: Table<C>, count: Counts<C>, a: C, b: C)
    requires a in matrix && b in matrix[a] && a in count
    requires 0 <= matrix[a][b] <= count[a]
    ensures a in Converted(matrix, count) && b in Converted(matrix, count)[a]
    ensures 0.0 <= Converted(matrix, count)[a][b] <= 1.0
  {
    var d := Denominator(count[a]) as real;
    var x := matrix[a][b] as real;
    assert x <= d;
    assert Converted(matrix, count)[a][b] == x / d;
  }
}
