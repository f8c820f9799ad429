/**
 * The computation `main` performs once the files are read: parse the rows,
 * tally the science and then the math transitions, and convert both.
 */
module Survey {
  import opened Wrappers
  import opened Text
  import opened Columns
  import opened RowParser
  import opened Transitions
  import opened TransitionFacts
  import opened Transformation

  /** A square matrix of shares over the universe, every share between zero and one. */
  ghost predicate ShareMatrix<C(!new)>(shares: Shares<C>, universe: set<C>) {
    (forall x :: x in shares <==> x in universe)
    && forall x :: x in shares ==>
         (forall y :: y in shares[x] <==> y in universe)
         && forall y :: y in shares[x] ==> 0.0 <= shares[x][y] <= 1.0
  }

  /** The tallies of any rows over a universe convert without error. */
  lemma TalliesConvertible<C>(ts: seq<Triple<C>>, universe: set<C>)
    ensures Convertible(MatrixAfter(ts, universe), CountAfter(ts, universe))
  {
    AfterKeys(ts, universe);
  }

  /** Converting the tallies of any rows gives a square matrix of shares between zero and one. */
  lemma ConvertedTallies<C(!new)>(ts: seq<Triple<C>>, universe: set<C>)
    ensures ShareMatrix(Converted(MatrixAfter(ts, universe), CountAfter(ts, universe)), universe)
  {
    var matrix := MatrixAfter(ts, universe);
    var count := CountAfter(ts, universe);
    var shares := Converted(matrix, count);
    AfterKeys(ts, universe);
    TalliesConvertible(ts, universe);
    forall x | x in shares
      ensures (forall y :: y in shares[x] <==> y in universe)
              && forall y :: y in shares[x] ==> 0.0 <= shares[x][y] <= 1.0
    {
      MatrixAfterSquare(ts, universe, x);
      ConvertedKeys(matrix, count, x);
      forall y | y in shares[x] ensures 0.0 <= shares[x][y] <= 1.0 {
        TalliesWithinCount(ts, universe, x, y);
        NeverNegative(ts, universe, x, y);
        UnitInterval(matrix, count, x, y);
      }
    }
  }

  datatype SurveyError =
    | ParseFailed(parse: ParseError)
    | TallyFailed(subject: Subject, tally: MatrixError)

  /** The transition shares of one subject: tallied over `classes`, then converted. */
  method SubjectShares(rows: seq<Cells>, classes: seq<string>, subject: Subject)
    returns (r: Result<Shares<string>, MatrixError>)
    ensures var universe := set c | c in classes;
            var cols := SubjectColumns(subject);
            r.Ok? <==> forall i :: 0 <= i < |rows| ==> Accepted(rows[i], cols, universe)
    ensures r.Ok? ==> var universe := set c | c in classes;
                      var ts := Triples(rows, SubjectColumns(subject));
                      r.value == Converted(MatrixAfter(ts, universe), CountAfter(ts, universe))
                      && ShareMatrix(r.value, universe)
    ensures r.Err? ==> var i := r.error.row;
                       i < |rows| && !Accepted(rows[i], SubjectColumns(subject), set c | c in classes)
                       && (r.error.MissingColumn? <==> !HasColumns(rows[i], SubjectColumns(subject)))
                       && forall j :: 0 <= j < i ==> Accepted(rows[j], SubjectColumns(subject), set c | c in classes)
  {
    var universe := set c | c in classes;
    var cols := SubjectColumns(subject);
    var tallies := ComputeMatrix(rows, classes, cols);
    if tallies.Err? {
      return Err(tallies.error);
    }
    ghost var ts := Triples(rows, cols);
    TalliesConvertible(ts, universe);
    ConvertedTallies(ts, universe);
    var shares := ConvertToTransformation(tallies.value.0, tallies.value.1);
    return Ok(shares.value);
  }

  /** A class list file read line by line, each line stripped: equal in length, every name stripped. */
  function ClassNames(lines: seq<string>): (r: seq<string>)
    ensures |r| == |lines|
    ensures forall i :: 0 <= i < |r| ==> r[i] == Strip(lines[i]) && IsStripped(r[i])
  {
    seq(|lines|, i requires 0 <= i < |lines| => Strip(lines[i]))
  }

  /** Reading a class list whose lines are already stripped gives those lines back. */
  lemma ClassNamesOfNames(lines: seq<string>)
    ensures ClassNames(ClassNames(lines)) == ClassNames(lines)
  {
    var names := ClassNames(lines);
    forall i | 0 <= i < |names| ensures ClassNames(names)[i] == names[i] {
      StripIdempotent(lines[i]);
    }
  }

  /**
   * `main` between reading its inputs and printing: the mapping file's
   * lines, the survey rows (header first) and the lines of the two class
   * list files. Science is tallied before math, so a science failure is the
   * one reported.
   */
  method Run(mappingLines: seq<string>, data: seq<seq<string>>,
             mathLines: seq<string>, scienceLines: seq<string>)
    returns (r: Result<(Shares<string>, Shares<string>), SurveyError>)
    ensures ParseData(mappingLines, data).Err? ==> r == Err(ParseFailed(ParseData(mappingLines, data).error))
    ensures r.Ok? ==> ParseData(mappingLines, data).Ok?
                      && ShareMatrix(r.value.0, set c | c in ClassNames(scienceLines))
                      && ShareMatrix(r.value.1, set c | c in ClassNames(mathLines))
    ensures r.Ok? ==> var rows := ParseData(mappingLines, data).value;
                      var su := set c | c in ClassNames(scienceLines);
                      var mu := set c | c in ClassNames(mathLines);
                      (forall i :: 0 <= i < |rows| ==>
                         Accepted(rows[i], SubjectColumns(Science), su) && Accepted(rows[i], SubjectColumns(Math), mu))
                      && var science := Triples(rows, SubjectColumns(Science));
                         var math := Triples(rows, SubjectColumns(Math));
                            r.value == (Converted(MatrixAfter(science, su), CountAfter(science, su)),
                                     Converted(MatrixAfter(math, mu), CountAfter(math, mu)))
    ensures r.Ok? <==> ParseData(mappingLines, data).Ok?
                       && var rows := ParseData(mappingLines, data).value;
                          forall i :: 0 <= i < |rows| ==>
                            Accepted(rows[i], SubjectColumns(Science), set c | c in ClassNames(scienceLines))
                            && Accepted(rows[i], SubjectColumns(Math), set c | c in ClassNames(mathLines))
    ensures r.Err? ==> (r.error.ParseFailed? <==> ParseData(mappingLines, data).Err?)
    ensures r.Err? && r.error.TallyFailed? ==> ParseData(mappingLines, data).Ok?
    ensures r.Err? && r.error.TallyFailed? ==>
              var rows := ParseData(mappingLines, data).value;
              var cols := SubjectColumns(r.error.subject);
              var universe := if r.error.subject == Science then set c | c in ClassNames(scienceLines)
                              else set c | c in ClassNames(mathLines);
              var i := r.error.tally.row;
              i < |rows| && !Accepted(rows[i], cols, universe)
              && (r.error.tally.MissingColumn? <==> !HasColumns(rows[i], cols))
              && forall j :: 0 <= j < i ==> Accepted(rows[j], cols, universe)
    ensures r.Err? && r.error.TallyFailed? && r.error.subject == Math ==>
              var rows := ParseData(mappingLines, data).value;
              forall i :: 0 <= i < |rows| ==> Accepted(rows[i], SubjectColumns(Science), set c | c in ClassNames(scienceLines))
  {
    var parsed := ParseData(mappingLines, data);
    if parsed.Err? {
      return Err(ParseFailed(parsed.error));
    }
    var rows := parsed.value;
    var mathClasses, scienceClasses := ClassNames(mathLines), ClassNames(scienceLines);
    var science := SubjectShares(rows, scienceClasses, Science);
    if science.Err? {
      return Err(TallyFailed(Science, science.error));
    }
    var math := SubjectShares(rows, mathClasses, Math);
    if math.Err? {
      return Err(TallyFailed(Math, math.error));
    }
    return Ok((science.value, math.value));
  }
}
