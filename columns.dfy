/**
 * The column layout of a survey response row and the three columns each
 * subject's transition matrix is built from.
 */
module Columns {
  const Timestamp: nat := 0
  const Grade: nat := 1
  const CurSci: nat := 2
  const PrevSci: nat := 3
  const NextSci: nat := 4
  const CurMath: nat := 5
  const PrevMath: nat := 6
  const NextMath: nat := 7

  /** The number of columns a complete response row has. */
  const Width: nat := 8

  datatype Subject = Science | Math

  /** The previous, current and next class columns of one subject, as `main` passes them. */
  datatype ColumnTriple = ColumnTriple(prev: nat, cur: nat, next: nat)

  function SubjectColumns(subject: Subject): (r: ColumnTriple)
    ensures r.prev < Width && r.cur < Width && r.next < Width
    ensures r.prev != r.cur && r.cur != r.next && r.prev != r.next
    ensures r.prev != Timestamp && r.cur != Timestamp && r.next != Timestamp
    ensures r.prev != Grade && r.cur != Grade && r.next != Grade
  {
    match subject
    case Science => ColumnTriple(PrevSci, CurSci, NextSci)
    case Math => ColumnTriple(PrevMath, CurMath, NextMath)
  }

  /** The two subjects read disjoint columns. */
  lemma SubjectsDisjoint()
    ensures var s := SubjectColumns(Science);
            var m := SubjectColumns(Math);
            {s.prev, s.cur, s.next} !! {m.prev, m.cur, m.next}
  {
  }
}
