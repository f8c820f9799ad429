/**
 * What the tallies of `compute_matrix` hold: every entry is the number of
 * transitions the rows record for its pair, no entry exceeds the count of its
 * row, and every accepted row raises the totals by a fixed amount.
 */
module TransitionFacts {
  import opened Sums
  import opened Transitions

  /** One row's steps add `EntryStep` to an entry and keep the keys of its row. */
  lemma SteppedEntry<C>(matrix: Table<C>, t: Triple<C>, x: C, y: C)
    requires x in matrix && y in matrix[x]
    ensures x in Stepped(matrix, t) && Stepped(matrix, t)[x].Keys == matrix[x].Keys
    ensures Stepped(matrix, t)[x][y] == matrix[x][y] + EntryStep(t, x, y)
  {
  }

  /** Every entry of the matrix after the rows `ts` is the number of transitions they record for its pair. */
  lemma {:induction false} MatrixAfterEntries<C>(ts: seq<Triple<C>>, universe: set<C>, x: C, y: C)
    requires x in universe && y in universe
    ensures x in MatrixAfter(ts, universe) && y in MatrixAfter(ts, universe)[x]
    ensures MatrixAfter(ts, universe)[x][y] == EntrySum(ts, x, y)
    decreases |ts|
  {
    MatrixAfterSquare(ts, universe, x);
    if ts != [] {
      var init := ts[..|ts| - 1];
      MatrixAfterEntries(init, universe, x, y);
      SteppedEntry(MatrixAfter(init, universe), ts[|ts| - 1], x, y);
    }
  }

  /** Every count after the rows `ts` is the number of transitions they record out of its class. */
  lemma {:induction false} CountAfterEntries<C>(ts: seq<Triple<C>>, universe: set<C>, x: C)
    requires x in universe
    ensures x in CountAfter(ts, universe)
    ensures CountAfter(ts, universe)[x] == CountSum(ts, x)
    decreases |ts|
  {
    AfterKeys(ts, universe);
    if ts != [] {
      var init := ts[..|ts| - 1];
      AfterKeys(init, universe);
      CountAfterEntries(init, universe, x);
    }
  }

  /** The tallies before any row: zero everywhere over the universe. */
  lemma StartsAtZero<C>(universe: set<C>, x: C, y: C)
    requires x in universe && y in universe
    ensures MatrixAfter([], universe)[x][y] == 0 && CountAfter([], universe)[x] == 0
  {
  }

  /** No entry is negative: every entry and every count is a number of recorded transitions. */
  lemma NeverNegative<C>(ts: seq<Triple<C>>, universe: set<C>, x: C, y: C)
    requires x in universe && y in universe
    ensures x in MatrixAfter(ts, universe) && y in MatrixAfter(ts, universe)[x] && x in CountAfter(ts, universe)
    ensures MatrixAfter(ts, universe)[x][y] >= 0 && CountAfter(ts, universe)[x] >= 0
  {
    MatrixAfterEntries(ts, universe, x, y);
    CountAfterEntries(ts, universe, x);
  }

  /** One row never adds more to `matrix[x][y]` than to `count[x]`. */
  lemma EntryStepWithinCountStep<C>(t: Triple<C>, x: C, y: C)
    ensures EntryStep(t, x, y) <= CountStep(t, x)
  {
    if x in t.prev && y in t.cur {
      assert |t.cur| >= 1;
    }
  }

  /** `matrix[x][y] <= count[x]` after any rows. */
  lemma {:induction false} EntryWithinCount<C>(ts: seq<Triple<C>>, x: C, y: C)
    ensures EntrySum(ts, x, y) <= CountSum(ts, x)
    decreases |ts|
  {
    if ts != [] {
      EntryWithinCount(ts[..|ts| - 1], x, y);
      EntryStepWithinCountStep(ts[|ts| - 1], x, y);
    }
  }

  /** The tallies themselves: no entry exceeds the count of its row, and a zero count means an all-zero row. */
  lemma TalliesWithinCount<C>(ts: seq<Triple<C>>, universe: set<C>, x: C, y: C)
    requires x in universe && y in universe
    ensures x in MatrixAfter(ts, universe) && y in MatrixAfter(ts, universe)[x] && x in CountAfter(ts, universe)
    ensures MatrixAfter(ts, universe)[x][y] <= CountAfter(ts, universe)[x]
    ensures CountAfter(ts, universe)[x] == 0 ==> MatrixAfter(ts, universe)[x][y] == 0
  {
    MatrixAfterEntries(ts, universe, x, y);
    CountAfterEntries(ts, universe, x);
    EntryWithinCount(ts, x, y);
  }

  /** The sum of all counts. */
  ghost function CountTotal<C>(count: Counts<C>): int {
    Sum(count)
  }

  /** Every row's total. */
  ghost function RowTotals<C>(matrix: Table<C>): (r: map<C, int>)
    ensures r.Keys == matrix.Keys
  {
    map a | a in matrix :: Sum(matrix[a])
  }

  /** The sum of all entries. */
  ghost function MatrixTotal<C>(matrix: Table<C>): int {
    Sum(RowTotals(matrix))
  }

  /** A row all of whose previous, current and next classes are in the universe, or with no current class. */
  lemma KnownIntersections<C>(t: Triple<C>, universe: set<C>)
    requires Known(t, universe)
    ensures |t.cur| * |t.prev * universe| == |t.cur| * |t.prev|
    ensures |t.cur * universe| == |t.cur|
    ensures |t.cur| * |t.next * universe| == |t.cur| * |t.next|
  {
    if t.cur != {} {
      assert t.prev * universe == t.prev;
      assert t.cur * universe == t.cur;
      assert t.next * universe == t.next;
    } else {
      assert t.cur * universe == {};
    }
  }

  /** An accepted row raises the total of all counts by `|cur|·|prev| + |cur|`. */
  lemma CountTotalStep<C>(ts: seq<Triple<C>>, t: Triple<C>, universe: set<C>)
    requires Known(t, universe)
    ensures CountTotal(CountAfter(ts + [t], universe))
            == CountTotal(CountAfter(ts, universe)) + |t.cur| * |t.prev| + |t.cur|
  {
    AfterSnoc(ts, t, universe);
    AfterKeys(ts, universe);
    var before := CountAfter(ts, universe);
    var steps := map a | a in before :: CountStep(t, a);
    SumPlus(before, steps, CountStepped(before, t));
    TwoIndicators(steps, t.prev, |t.cur|, t.cur, 1);
    KnownIntersections(t, universe);
  }

  /** The sizes of a row's class sets within the universe, for a row whose lookups succeed. */
  lemma RowIntersections<C>(t: Triple<C>, universe: set<C>, a: C)
    requires Known(t, universe)
    ensures (if a in t.prev then 1 else 0) * |t.cur * universe| == (if a in t.prev then |t.cur| else 0)
    ensures (if a in t.cur then 1 else 0) * |t.next * universe| == (if a in t.cur then |t.next| else 0)
  {
    if t.cur == {} {
      assert t.cur * universe == {};
    } else {
      assert t.cur * universe == t.cur;
      assert t.next * universe == t.next;
    }
  }

  /** One row's steps raise the total of row `a` by `|cur|` if `a` is previous and by `|next|` if it is current. */
  lemma SteppedRowTotal<C>(matrix: Table<C>, t: Triple<C>, universe: set<C>, a: C)
    requires Known(t, universe) && a in matrix && matrix[a].Keys == universe
    ensures Sum(Stepped(matrix, t)[a])
            == Sum(matrix[a]) + (if a in t.prev then |t.cur| else 0) + (if a in t.cur then |t.next| else 0)
  {
    var row := matrix[a];
    var steps := map b | b in row :: EntryStep(t, a, b);
    var after := Stepped(matrix, t)[a];
    forall b | b in after ensures after[b] == row[b] + steps[b] {
      SteppedEntry(matrix, t, a, b);
    }
    SumPlus(row, steps, after);
    TwoIndicators(steps, t.cur, if a in t.prev then 1 else 0, t.next, if a in t.cur then 1 else 0);
    RowIntersections(t, universe, a);
  }

  /** An accepted row raises the total of all matrix entries by `|cur|·(|prev| + |next|)`. */
  lemma MatrixTotalStep<C>(ts: seq<Triple<C>>, t: Triple<C>, universe: set<C>)
    requires Known(t, universe)
    ensures MatrixTotal(MatrixAfter(ts + [t], universe))
            == MatrixTotal(MatrixAfter(ts, universe)) + |t.cur| * (|t.prev| + |t.next|)
  {
    AfterSnoc(ts, t, universe);
    AfterKeys(ts, universe);
    var before := MatrixAfter(ts, universe);
    var totals := RowTotals(before);
    var steps := map a | a in before :: (if a in t.prev then |t.cur| else 0) + (if a in t.cur then |t.next| else 0);
    var after := RowTotals(Stepped(before, t));
    forall a | a in after ensures after[a] == totals[a] + steps[a] {
      MatrixAfterSquare(ts, universe, a);
      SteppedRowTotal(before, t, universe, a);
    }
    SumPlus(totals, steps, after);
    TwoIndicators(steps, t.prev, |t.cur|, t.cur, |t.next|);
    KnownIntersections(t, universe);
    assert |t.cur| * |t.prev| + |t.next| * |t.cur| == |t.cur| * (|t.prev| + |t.next|);
  }

  /** After a single row, the total of row `a` is what that row's steps put there. */
  lemma SingleRowTotal<C>(t: Triple<C>, universe: set<C>, a: C)
    requires Known(t, universe) && a in universe
    ensures a in MatrixAfter([t], universe)
    ensures Sum(MatrixAfter([t], universe)[a])
            == (if a in t.prev then |t.cur| else 0) + (if a in t.cur then |t.next| else 0)
  {
    assert [] + [t] == [t];
    AfterSnoc([], t, universe);
    var zero := MatrixAfter([], universe);
    MatrixAfterSquare([], universe, a);
    SumIndicator(zero[a], {}, 0);
    SteppedRowTotal(zero, t, universe, a);
  }

  /**
   * A row total is not bounded by the count of its row: after one response
   * whose current classes include `a` (and whose previous ones do not), row
   * `a` of the matrix totals the number of next classes while `count[a]` is
   * one, so any response naming two or more next classes makes that row of
   * the converted matrix sum to more than 1.
   */
  lemma RowTotalCanExceedCount<C>(t: Triple<C>, universe: set<C>, a: C)
    requires Known(t, universe) && a in universe && a !in t.prev && a in t.cur
    ensures a in MatrixAfter([t], universe) && a in CountAfter([t], universe)
    ensures Sum(MatrixAfter([t], universe)[a]) == |t.next|
    ensures CountAfter([t], universe)[a] == 1
  {
    SingleRowTotal(t, universe, a);
    CountAfterEntries([t], universe, a);
    assert [t][..0] == [];
  }
}
