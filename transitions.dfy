/**
 * `compute_matrix`: the transition counts of one subject. Every row adds one
 * step per (previous, current) pair and per (current, next) pair to the
 * matrix, and one count per (previous, current) pair and per current class.
 * The method builds the two local maps with the same nested loops as the
 * Python, but checks all of a row's columns and lookups before it updates
 * anything for that row; the functions after the data types say what the
 * maps hold after any sequence of rows.
 */
module Transitions {
  import opened Wrappers
  import opened Columns

  /** `matrix[x][y]`: how often class `x` was followed by class `y`. */
  type Table<C> = map<C, map<C, int>>

  /** `count[x]`: the denominator of row `x`. */
  type Counts<C> = map<C, int>

  /** The three class sets of one subject that one survey row names. */
  datatype Triple<C> = Triple(prev: set<C>, cur: set<C>, next: set<C>)

  /** The row is long enough for `row[col]` to exist for all three columns. */
  predicate HasColumns<C(==)>(row: seq<set<C>>, cols: ColumnTriple) {
    cols.prev < |row| && cols.cur < |row| && cols.next < |row|
  }

  function TripleOf<C(==)>(row: seq<set<C>>, cols: ColumnTriple): Triple<C>
    requires HasColumns(row, cols)
  {
    Triple(row[cols.prev], row[cols.cur], row[cols.next])
  }

  /**
   * All lookups a row makes succeed. With no current class, no lookup is
   * made at all; otherwise every previous, current and next class is looked up.
   */
  predicate Known<C(==)>(t: Triple<C>, universe: set<C>) {
    t.cur == {} || (t.prev <= universe && t.cur <= universe && t.next <= universe)
  }

  /**
   * `Known` lookup by lookup: for every current class `c`, the loops index
   * `matrix[p][c]` and `count[p]` for each previous class `p`,
   * `matrix[c][n]` for each next class `n`, and `count[c]`, all of which are
   * keyed by the universe.
   */
  lemma KnownIffLookupsSucceed<C>(t: Triple<C>, universe: set<C>)
    ensures Known(t, universe) <==>
              forall c :: c in t.cur ==>
                c in universe
                && (forall p :: p in t.prev ==> p in universe)
                && (forall n :: n in t.next ==> n in universe)
  {
    if !Known(t, universe) {
      var c :| c in t.cur;
      if !(t.cur <= universe) {
        var c' :| c' in t.cur && c' !in universe;
      } else if !(t.prev <= universe) {
        var p :| p in t.prev && p !in universe;
      } else {
        var n :| n in t.next && n !in universe;
      }
    }
  }

  predicate Accepted<C(==)>(row: seq<set<C>>, cols: ColumnTriple, universe: set<C>) {
    HasColumns(row, cols) && Known(TripleOf(row, cols), universe)
  }

  /** The triples of rows that all have the three columns, in row order. */
  function Triples<C(==)>(rows: seq<seq<set<C>>>, cols: ColumnTriple): (r: seq<Triple<C>>)
    requires forall i :: 0 <= i < |rows| ==> HasColumns(rows[i], cols)
    ensures |r| == |rows|
    ensures forall i :: 0 <= i < |rows| ==> r[i] == TripleOf(rows[i], cols)
  {
    seq(|rows|, i requires 0 <= i < |rows| => TripleOf(rows[i], cols))
  }

  /** What one row adds to `matrix[x][y]`. */
  function EntryStep<C(==)>(t: Triple<C>, x: C, y: C): nat {
    (if x in t.prev && y in t.cur then 1 else 0) + (if x in t.cur && y in t.next then 1 else 0)
  }

  /** What one row adds to `count[x]`: one per current class it preceded, one if it is current. */
  function CountStep<C(==)>(t: Triple<C>, x: C): nat {
    (if x in t.prev then |t.cur| else 0) + (if x in t.cur then 1 else 0)
  }

  /** `matrix[x][y]` after the rows `ts`, starting from zero. */
  function EntrySum<C(==)>(ts: seq<Triple<C>>, x: C, y: C): nat {
    if ts == [] then 0 else EntrySum(ts[..|ts| - 1], x, y) + EntryStep(ts[|ts| - 1], x, y)
  }

  /** `count[x]` after the rows `ts`, starting from zero. */
  function CountSum<C(==)>(ts: seq<Triple<C>>, x: C): nat {
    if ts == [] then 0 else CountSum(ts[..|ts| - 1], x) + CountStep(ts[|ts| - 1], x)
  }

  /** `matrix` with one row's steps added to every entry. */
  function Stepped<C(==)>(matrix: Table<C>, t: Triple<C>): (r: Table<C>)
    ensures r.Keys == matrix.Keys
  {
    map a | a in matrix :: map b | b in matrix[a] :: matrix[a][b] + EntryStep(t, a, b)
  }

  /** `count` with one row's steps added to every class. */
  function CountStepped<C(==)>(count: Counts<C>, t: Triple<C>): (r: Counts<C>)
    ensures r.Keys == count.Keys
  {
    map a | a in count :: count[a] + CountStep(t, a)
  }

  /** `count` with one added for every class of `s`. */
  function Incremented<C(==)>(count: Counts<C>, s: set<C>): (r: Counts<C>)
    ensures r.Keys == count.Keys
  {
    map a | a in count :: count[a] + (if a in s then 1 else 0)
  }

  /** The matrix `compute_matrix` starts from: a zero for every pair of classes of the universe. */
  function ZeroMatrix<C(==)>(universe: set<C>): Table<C>
  {
    map x | x in universe :: map y | y in universe :: 0
  }

  /** The count `compute_matrix` starts from: a zero for every class of the universe. */
  function ZeroCount<C(==)>(universe: set<C>): Counts<C>
  {
    map x | x in universe :: 0
  }

  /** The matrix after the rows `ts`, in order, starting from zero. */
  function MatrixAfter<C(==)>(ts: seq<Triple<C>>, universe: set<C>): Table<C>
  {
    if ts == [] then ZeroMatrix(universe)
    else Stepped(MatrixAfter(ts[..|ts| - 1], universe), ts[|ts| - 1])
  }

  /** The count after the rows `ts`, in order, starting from zero. */
  function CountAfter<C(==)>(ts: seq<Triple<C>>, universe: set<C>): Counts<C>
  {
    if ts == [] then ZeroCount(universe)
    else CountStepped(CountAfter(ts[..|ts| - 1], universe), ts[|ts| - 1])
  }

  /** A row without a (previous, current) or a (current, next) pair leaves the matrix as it is. */
  lemma SteppedByNothing<C>(matrix: Table<C>, t: Triple<C>)
    requires (t.prev == {} && t.next == {}) || t.cur == {}
    ensures Stepped(matrix, t) == matrix
  {
    var r := Stepped(matrix, t);
    forall a | a in matrix ensures r[a] == matrix[a] {
      assert r[a].Keys == matrix[a].Keys;
    }
  }

  datatype MatrixError =
    | MissingColumn(row: nat)  // IndexError: the row is shorter than a column index
    | UnknownClass(row: nat)   // KeyError: the row names a class outside the universe

  /** Adds `1` to `matrix[x][y]`. */
  function Bump<C(==)>(matrix: Table<C>, x: C, y: C): (r: Table<C>)
    requires x in matrix && y in matrix[x]
  {
    matrix[x := matrix[x][y := matrix[x][y] + 1]]
  }

  /** Adds `1` to `count[x]`. */
  function BumpCount<C(==)>(count: Counts<C>, x: C): (r: Counts<C>)
    requires x in count
  {
    count[x := count[x] + 1]
  }

  /** One more pass of the first inner loop: `previous` gets its step towards `current`. */
  lemma BumpPrevious<C>(matrix: Table<C>, done: set<C>, previous: C, current: C)
    requires previous in matrix && current in matrix[previous] && previous !in done
    ensures Bump(Stepped(matrix, Triple(done, {current}, {})), previous, current)
            == Stepped(matrix, Triple(done + {previous}, {current}, {}))
  {
    var l := Bump(Stepped(matrix, Triple(done, {current}, {})), previous, current);
    var r := Stepped(matrix, Triple(done + {previous}, {current}, {}));
    forall a | a in matrix ensures l[a] == r[a] {
      assert l[a].Keys == r[a].Keys;
    }
  }

  /** One more pass of the second inner loop: `current` gets its step towards `following`. */
  lemma BumpNext<C>(matrix: Table<C>, current: C, done: set<C>, following: C)
    requires current in matrix && following in matrix[current] && following !in done
    ensures Bump(Stepped(matrix, Triple({}, {current}, done)), current, following)
            == Stepped(matrix, Triple({}, {current}, done + {following}))
  {
    var l := Bump(Stepped(matrix, Triple({}, {current}, done)), current, following);
    var r := Stepped(matrix, Triple({}, {current}, done + {following}));
    forall a | a in matrix ensures l[a] == r[a] {
      assert l[a].Keys == r[a].Keys;
    }
  }

  lemma BumpIncremented<C>(count: Counts<C>, done: set<C>, previous: C)
    requires previous in count && previous !in done
    ensures BumpCount(Incremented(count, done), previous) == Incremented(count, done + {previous})
  {
  }

  /** Moving one element from the classes still to visit to those visited keeps the split of `all`. */
  lemma Visit<C>(all: set<C>, left: set<C>, done: set<C>, x: C)
    requires left <= all && done == all - left && x in left
    ensures left - {x} <= all && done + {x} == all - (left - {x})
  {
  }

  /**
   * The first inner loop of `compute_matrix` for one current class: each
   * previous class gets one step towards it and one count.
   */
  method AddPrevious<C(==)>(matrix: Table<C>, count: Counts<C>, prev: set<C>, current: C)
    returns (m: Table<C>, c: Counts<C>)
    requires forall p :: p in prev ==> p in matrix && current in matrix[p] && p in count
    ensures m == Stepped(matrix, Triple(prev, {current}, {}))
    ensures c == Incremented(count, prev)
  {
    m, c := matrix, count;
    var left := prev;
    ghost var done: set<C> := {};
    SteppedByNothing(matrix, Triple(done, {current}, {}));
    while left != {}
      invariant left <= prev && done == prev - left
      invariant m == Stepped(matrix, Triple(done, {current}, {}))
      invariant c == Incremented(count, done)
      decreases left
    {
      var previous :| previous in left;
      Visit(prev, left, done, previous);
      BumpPrevious(matrix, done, previous, current);
      BumpIncremented(count, done, previous);
      m := Bump(m, previous, current);
      c := BumpCount(c, previous);
      left, done := left - {previous}, done + {previous};
    }
    assert done == prev;
  }

  /** The second inner loop: the current class gets one step towards each next class. */
  method AddNext<C(==)>(matrix: Table<C>, current: C, next: set<C>)
    returns (m: Table<C>)
    requires current in matrix && forall n :: n in next ==> n in matrix[current]
    ensures m == Stepped(matrix, Triple({}, {current}, next))
  {
    m := matrix;
    var left := next;
    ghost var done: set<C> := {};
    SteppedByNothing(matrix, Triple({}, {current}, done));
    while left != {}
      invariant left <= next && done == next - left
      invariant m == Stepped(matrix, Triple({}, {current}, done))
      decreases left
    {
      var following :| following in left;
      Visit(next, left, done, following);
      BumpNext(matrix, current, done, following);
      m := Bump(m, current, following);
      left, done := left - {following}, done + {following};
    }
    assert done == next;
  }

  /** Three rounds of steps whose entries add up to those of `t` are the steps of `t`. */
  lemma ThreeSteps<C>(matrix: Table<C>, t0: Triple<C>, t1: Triple<C>, t2: Triple<C>, t: Triple<C>)
    requires forall a, b :: EntryStep(t, a, b) == EntryStep(t0, a, b) + EntryStep(t1, a, b) + EntryStep(t2, a, b)
    ensures Stepped(Stepped(Stepped(matrix, t0), t1), t2) == Stepped(matrix, t)
  {
    var m1 := Stepped(matrix, t0);
    var m2 := Stepped(m1, t1);
    var l := Stepped(m2, t2);
    var r := Stepped(matrix, t);
    forall a | a in matrix ensures l[a] == r[a] {
      assert l[a].Keys == r[a].Keys;
    }
  }

  /** The steps towards one more current class split off from those towards the classes before it. */
  lemma EntryStepSplit<C>(prev: set<C>, done: set<C>, next: set<C>, current: C, a: C, b: C)
    requires current !in done
    ensures EntryStep(Triple(prev, done + {current}, next), a, b)
            == EntryStep(Triple(prev, done, next), a, b) + EntryStep(Triple(prev, {current}, {}), a, b)
               + EntryStep(Triple({}, {current}, next), a, b)
  {
  }

  /** Both passes for one more current class give the steps of a row with one more current class. */
  lemma CurrentStep<C>(matrix: Table<C>, prev: set<C>, done: set<C>, next: set<C>, current: C)
    requires current !in done
    ensures Stepped(Stepped(Stepped(matrix, Triple(prev, done, next)), Triple(prev, {current}, {})),
                    Triple({}, {current}, next))
            == Stepped(matrix, Triple(prev, done + {current}, next))
  {
    forall a, b ensures EntryStep(Triple(prev, done + {current}, next), a, b)
                        == EntryStep(Triple(prev, done, next), a, b) + EntryStep(Triple(prev, {current}, {}), a, b)
                           + EntryStep(Triple({}, {current}, next), a, b) {
      EntryStepSplit(prev, done, next, current, a, b);
    }
    ThreeSteps(matrix, Triple(prev, done, next), Triple(prev, {current}, {}), Triple({}, {current}, next),
               Triple(prev, done + {current}, next));
  }

  lemma CurrentCountStep<C>(count: Counts<C>, prev: set<C>, done: set<C>, next: set<C>, current: C)
    requires current !in done && current in count
    ensures BumpCount(Incremented(CountStepped(count, Triple(prev, done, next)), prev), current)
            == CountStepped(count, Triple(prev, done + {current}, next))
  {
    assert |done + {current}| == |done| + 1;
  }

  /**
   * The body of the outer loop of `compute_matrix` for one row whose lookups
   * all succeed: the maps grow by exactly that row's steps.
   */
  method AddRow<C(==)>(matrix: Table<C>, count: Counts<C>, t: Triple<C>, ghost universe: set<C>)
    returns (m: Table<C>, c: Counts<C>)
    requires Known(t, universe)
    requires universe <= matrix.Keys && universe <= count.Keys
    requires forall x :: x in universe ==> universe <= matrix[x].Keys
    ensures m == Stepped(matrix, t)
    ensures c == CountStepped(count, t)
  {
    m, c := matrix, count;
    var left := t.cur;
    ghost var done: set<C> := {};
    SteppedByNothing(matrix, Triple(t.prev, done, t.next));
    assert c == CountStepped(count, Triple(t.prev, done, t.next));
    while left != {}
      invariant left <= t.cur && done == t.cur - left
      invariant m == Stepped(matrix, Triple(t.prev, done, t.next))
      invariant c == CountStepped(count, Triple(t.prev, done, t.next))
      decreases left
    {
      var current :| current in left;
      Visit(t.cur, left, done, current);
      CurrentStep(matrix, t.prev, done, t.next, current);
      CurrentCountStep(count, t.prev, done, t.next, current);
      m, c := AddPrevious(m, c, t.prev, current);
      m := AddNext(m, current, t.next);
      c := BumpCount(c, current);
      left, done := left - {current}, done + {current};
    }
    assert done == t.cur;
    assert Triple(t.prev, done, t.next) == t;
  }

  /** The matrix and the count after any rows are keyed by exactly the universe. */
  lemma {:induction false} AfterKeys<C>(ts: seq<Triple<C>>, universe: set<C>)
    ensures MatrixAfter(ts, universe).Keys == universe
    ensures CountAfter(ts, universe).Keys == universe
    decreases |ts|
  {
    if ts != [] {
      AfterKeys(ts[..|ts| - 1], universe);
    }
  }

  /** Every row of the matrix after any rows is keyed by exactly the universe. */
  lemma {:induction false} MatrixAfterSquare<C>(ts: seq<Triple<C>>, universe: set<C>, x: C)
    requires x in universe
    ensures x in MatrixAfter(ts, universe) && MatrixAfter(ts, universe)[x].Keys == universe
    decreases |ts|
  {
    AfterKeys(ts, universe);
    if ts != [] {
      AfterKeys(ts[..|ts| - 1], universe);
      MatrixAfterSquare(ts[..|ts| - 1], universe, x);
    }
  }

  lemma AfterSnoc<C>(ts: seq<Triple<C>>, t: Triple<C>, universe: set<C>)
    ensures MatrixAfter(ts + [t], universe) == Stepped(MatrixAfter(ts, universe), t)
    ensures CountAfter(ts + [t], universe) == CountStepped(CountAfter(ts, universe), t)
  {
    assert (ts + [t])[..|ts|] == ts;
  }

  /** The maps hold the tallies of the rows `ts`. */
  ghost predicate Tallied<C>(matrix: Table<C>, count: Counts<C>, ts: seq<Triple<C>>, universe: set<C>) {
    matrix == MatrixAfter(ts, universe) && count == CountAfter(ts, universe)
  }

  /** One row of `compute_matrix` whose lookups succeed takes the tallies of the rows before it to those including it. */
  method AddTallied<C(==)>(matrix: Table<C>, count: Counts<C>, ghost ts: seq<Triple<C>>, t: Triple<C>, ghost universe: set<C>)
    returns (m: Table<C>, c: Counts<C>)
    requires Tallied(matrix, count, ts, universe)
    requires Known(t, universe)
    ensures Tallied(m, c, ts + [t], universe)
  {
    AfterKeys(ts, universe);
    forall x | x in universe ensures universe <= matrix[x].Keys {
      MatrixAfterSquare(ts, universe, x);
    }
    AfterSnoc(ts, t, universe);
    m, c := AddRow(matrix, count, t, universe);
  }

  /**
   * `compute_matrix(data_rows, classes, prev, cur, next)`: the tallies of all
   * rows over the universe of `classes`, or the first row whose column or
   * class lookup fails.
   */
  method ComputeMatrix<C(==)>(rows: seq<seq<set<C>>>, classes: seq<C>, cols: ColumnTriple)
    returns (r: Result<(Table<C>, Counts<C>), MatrixError>)
    ensures var universe := set c | c in classes;
            r.Ok? <==> forall i :: 0 <= i < |rows| ==> Accepted(rows[i], cols, universe)
    ensures r.Ok? ==> var universe := set c | c in classes;
                      r.value == (MatrixAfter(Triples(rows, cols), universe), CountAfter(Triples(rows, cols), universe))
    ensures r.Err? ==> var i := r.error.row;
                       i < |rows| && !Accepted(rows[i], cols, set c | c in classes)
                       && (r.error.MissingColumn? <==> !HasColumns(rows[i], cols))
                       && forall j :: 0 <= j < i ==> Accepted(rows[j], cols, set c | c in classes)
  {
    var universe := set c | c in classes;
    var matrix: Table<C> := map x | x in universe :: map y | y in universe :: 0;
    var count: Counts<C> := map x | x in universe :: 0;
    ghost var ts: seq<Triple<C>> := [];
    var i := 0;
    while i < |rows|
      invariant i <= |rows| && |ts| == i
      invariant forall j :: 0 <= j < i ==> Accepted(rows[j], cols, universe)
      invariant forall j :: 0 <= j < i ==> ts[j] == TripleOf(rows[j], cols)
      invariant Tallied(matrix, count, ts, universe)
    {
      if !HasColumns(rows[i], cols) {
        return Err(MissingColumn(i));
      }
      var t := TripleOf(rows[i], cols);
      if !Known(t, universe) {
        return Err(UnknownClass(i));
      }
      matrix, count := AddTallied(matrix, count, ts, t, universe);
      ghost var prefix := ts;
      ts := ts + [t];
      assert forall j :: 0 <= j < i ==> ts[j] == prefix[j];
      assert ts[i] == t && Accepted(rows[i], cols, universe);
      i := i + 1;
    }
    assert ts == Triples(rows, cols);
    return Ok((matrix, count));
  }
}
