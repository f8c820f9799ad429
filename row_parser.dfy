/**
 * `parse_data`: drop the header row, then turn every cell of every survey row
 * into the set of canonical class names it lists.
 */
module RowParser {
  import opened Wrappers
  import opened Text
  import opened Mapping

  /** The sentinel a synonym can map a token to so that the token is dropped. */
  const Ignore: string := "ignore"

  const Comma: string := ","

  type Cells = seq<set<string>>

  /** The comma-separated pieces of a cell, each stripped. */
  function Pieces(cell: string): (r: seq<string>)
    ensures |r| == |Split(cell, Comma)|
    ensures forall k :: 0 <= k < |r| ==> r[k] == Strip(Split(cell, Comma)[k])
  {
    var parts := Split(cell, Comma);
    seq(|parts|, k requires 0 <= k < |parts| => Strip(parts[k]))
  }

  /** Every piece of a cell is stripped and free of commas. */
  lemma PiecesAreClean(cell: string)
    ensures forall k :: 0 <= k < |Pieces(cell)| ==> IsStripped(Pieces(cell)[k]) && !Contains(Pieces(cell)[k], Comma)
  {
    var parts := Split(cell, Comma);
    SplitPiecesLackSeparator(cell, Comma);
    forall k | 0 <= k < |parts| ensures !Contains(Strip(parts[k]), Comma) {
      StripKeepsAbsence(parts[k], Comma);
    }
  }

  /** A cell has one piece more than it has commas. */
  lemma PiecesCount(cell: string)
    ensures |Pieces(cell)| == Count(cell, ',') + 1
  {
    SplitCharPieces(cell, ',');
  }

  /** Every token is rewritten once through the synonym map. */
  function Rewrite(mapping: Synonyms, tokens: seq<string>): (r: seq<string>)
    ensures |r| == |tokens|
    ensures forall k :: 0 <= k < |r| ==> (tokens[k] in mapping ==> r[k] in mapping.Values)
    ensures forall k :: 0 <= k < |r| ==> (tokens[k] !in mapping ==> r[k] == tokens[k])
  {
    seq(|tokens|, k requires 0 <= k < |tokens| => Canonical(mapping, tokens[k]))
  }

  /** The distinct rewritten tokens, without the sentinel. */
  function KeepClasses(values: seq<string>): (r: set<string>)
    ensures Ignore !in r
  {
    set x | x in values && x != Ignore
  }

  /** The kept set holds every token other than the sentinel, and nothing else. */
  lemma KeepClassesElements(values: seq<string>)
    ensures forall x :: x in KeepClasses(values) ==> exists k :: 0 <= k < |values| && values[k] == x
    ensures forall k :: 0 <= k < |values| && values[k] != Ignore ==> values[k] in KeepClasses(values)
  {
  }

  /** One survey cell, normalised. */
  function NormaliseCell(mapping: Synonyms, cell: string): (r: set<string>)
    ensures Ignore !in r
  {
    KeepClasses(Rewrite(mapping, Pieces(cell)))
  }

  /** Every row after the header, every cell normalised, the shape kept. */
  function NormaliseRows(mapping: Synonyms, rows: seq<seq<string>>): (r: seq<Cells>)
    ensures |r| == |rows|
    ensures forall i :: 0 <= i < |r| ==> |r[i]| == |rows[i]|
    ensures forall i, j :: 0 <= i < |r| && 0 <= j < |r[i]| ==> Ignore !in r[i][j]
    ensures forall i, j :: 0 <= i < |r| && 0 <= j < |r[i]| ==> r[i][j] == NormaliseCell(mapping, rows[i][j])
  {
    seq(|rows|, i requires 0 <= i < |rows| =>
      seq(|rows[i]|, j requires 0 <= j < |rows[i]| => NormaliseCell(mapping, rows[i][j])))
  }

  datatype ParseError =
    | BadMappingLine(line: nat)  // a mapping line without "=>"
    | MissingHeader              // no rows at all, so there is no header to drop

  /**
   * `parse_data` with the mapping file given as its lines: first the mapping
   * is read, then the header row is dropped and the remaining rows normalised.
   */
  function ParseData(mappingLines: seq<string>, data: seq<seq<string>>): (r: Result<seq<Cells>, ParseError>)
    ensures ParseMapping(mappingLines).Err? ==> r == Err(BadMappingLine(ParseMapping(mappingLines).error.line))
    ensures ParseMapping(mappingLines).Ok? && data == [] ==> r == Err(MissingHeader)
    ensures r.Ok? <==> ParseMapping(mappingLines).Ok? && data != []
    ensures r.Ok? ==> |r.value| == |data| - 1
                      && (forall i :: 0 <= i < |r.value| ==> |r.value[i]| == |data[i + 1]|)
                      && forall i, j :: 0 <= i < |r.value| && 0 <= j < |r.value[i]| ==>
                           Ignore !in r.value[i][j]
                           && r.value[i][j] == NormaliseCell(ParseMapping(mappingLines).value, data[i + 1][j])
  {
    match ParseMapping(mappingLines)
    case Err(e) => Err(BadMappingLine(e.line))
    case Ok(mapping) =>
      if data == [] then Err(MissingHeader)
      else
        var rows := NormaliseRows(mapping, data[1..]);
        assert forall i :: 0 <= i < |data| - 1 ==> data[1..][i] == data[i + 1];
        Ok(rows)
  }

  /**
   * Every element of a normalised cell is a stripped comma piece rewritten
   * once: the piece itself if it is no key of the map, its synonym if it is;
   * and every such rewrite other than the sentinel is an element.
   */
  lemma CellElements(mapping: Synonyms, cell: string, x: string)
    ensures x in NormaliseCell(mapping, cell) <==>
              x != Ignore
              && exists k :: 0 <= k < |Split(cell, Comma)| &&
                   var t := Strip(Split(cell, Comma)[k]);
                   (t !in mapping && x == t) || (t in mapping && x == mapping[t])
  {
    var ps := Pieces(cell);
    var vs := Rewrite(mapping, ps);
    if x in NormaliseCell(mapping, cell) {
      var k :| 0 <= k < |vs| && vs[k] == x;
      assert ps[k] == Strip(Split(cell, Comma)[k]);
    } else if x != Ignore {
      forall k | 0 <= k < |Split(cell, Comma)|
        ensures var t := Strip(Split(cell, Comma)[k]);
                !((t !in mapping && x == t) || (t in mapping && x == mapping[t]))
      {
        assert vs[k] != x;
      }
    }
  }

  /** The sentinel never survives normalisation, whether typed or reached through a synonym. */
  lemma IgnoreNeverKept(mapping: Synonyms, cell: string)
    ensures Ignore !in NormaliseCell(mapping, cell)
  {
  }

  lemma {:induction false} KeepClassesSize(values: seq<string>)
    ensures |KeepClasses(values)| <= |values|
    decreases |values|
  {
    if values != [] {
      var init := values[..|values| - 1];
      var last := values[|values| - 1];
      KeepClassesSize(init);
      assert KeepClasses(values) == KeepClasses(init) + (if last == Ignore then {} else {last});
    }
  }

  /** A cell yields at most one class per comma-separated piece; a cell without a comma at most one. */
  lemma CellSize(mapping: Synonyms, cell: string)
    ensures |NormaliseCell(mapping, cell)| <= Count(cell, ',') + 1
    ensures !Contains(cell, Comma) ==> |NormaliseCell(mapping, cell)| <= 1
  {
    PiecesCount(cell);
    KeepClassesSize(Rewrite(mapping, Pieces(cell)));
    if !Contains(cell, Comma) {
      CountAbsent(cell, ',');
    }
  }

  lemma KeepPair(a: string, b: string)
    ensures KeepClasses([a, b]) == {a, b} - {Ignore}
  {
    assert forall x :: x in [a, b] <==> x == a || x == b;
  }

  /** Splitting two comma-free texts joined by a comma gives them back. */
  lemma SplitTwo(a: string, b: string)
    requires !Contains(a, Comma) && !Contains(b, Comma)
    ensures Split(a + Comma + b, Comma) == [a, b]
  {
    SplitJoin([a, b], ',');
    assert Join([a, b], Comma) == a + Comma + b;
  }

  /** The pieces of two comma-free texts joined by a comma are the two texts, stripped. */
  lemma PiecesOfTwo(a: string, b: string)
    requires !Contains(a, Comma) && !Contains(b, Comma)
    ensures Pieces(a + Comma + b) == [Strip(a), Strip(b)]
  {
    SplitTwo(a, b);
    var ps := Pieces(a + Comma + b);
    assert ps[0] == Strip(a) && ps[1] == Strip(b);
  }

  /** Two tokens rewritten and filtered: their synonyms, without the sentinel. */
  lemma RewritePair(mapping: Synonyms, x: string, y: string)
    ensures KeepClasses(Rewrite(mapping, [x, y])) == {Canonical(mapping, x), Canonical(mapping, y)} - {Ignore}
  {
    var vs := Rewrite(mapping, [x, y]);
    assert vs == [Canonical(mapping, x), Canonical(mapping, y)];
    KeepPair(vs[0], vs[1]);
  }

  /** A cell of two comma-free pieces yields the rewrites of both pieces, without the sentinel. */
  lemma TwoPieceCell(mapping: Synonyms, a: string, b: string)
    requires !Contains(a, Comma) && !Contains(b, Comma)
    ensures NormaliseCell(mapping, a + Comma + b)
            == {Canonical(mapping, Strip(a)), Canonical(mapping, Strip(b))} - {Ignore}
  {
    var cell := a + Comma + b;
    PiecesOfTwo(a, b);
    RewritePair(mapping, Strip(a), Strip(b));
    assert NormaliseCell(mapping, cell) == KeepClasses(Rewrite(mapping, [Strip(a), Strip(b)]));
  }

  /** A text without a comma splits into itself. */
  lemma SplitOne(cell: string)
    requires !Contains(cell, Comma)
    ensures Split(cell, Comma) == [cell]
  {
    SplitIsSingleIff(cell, Comma);
    JoinSplit(cell, Comma);
  }

  /** A cell without a comma yields the rewrite of its one stripped piece, unless that is the sentinel. */
  lemma OnePieceCell(mapping: Synonyms, cell: string)
    requires !Contains(cell, Comma)
    ensures NormaliseCell(mapping, cell) == {Canonical(mapping, Strip(cell))} - {Ignore}
  {
    SplitOne(cell);
    var ps := Pieces(cell);
    assert ps == [Strip(cell)];
    var vs := Rewrite(mapping, ps);
    var v := Canonical(mapping, Strip(cell));
    assert vs == [v];
    assert forall x :: x in vs <==> x == v;
  }

  /**
   * Synonyms are applied once, not chased: a key whose synonym is itself a
   * key still yields that synonym, never the synonym's synonym.
   */
  lemma SynonymAppliedOnce(mapping: Synonyms, cell: string)
    requires !Contains(cell, Comma)
    requires Strip(cell) in mapping && mapping[Strip(cell)] != Ignore
    ensures NormaliseCell(mapping, cell) == {mapping[Strip(cell)]}
  {
    OnePieceCell(mapping, cell);
    assert Canonical(mapping, Strip(cell)) == mapping[Strip(cell)];
    assert {mapping[Strip(cell)]} - {Ignore} == {mapping[Strip(cell)]};
  }

  /** An empty cell has one empty piece: it yields the empty name, unless the map rewrites that. */
  lemma EmptyCell(mapping: Synonyms)
    ensures NormaliseCell(mapping, "") == {Canonical(mapping, "")} - {Ignore}
  {
    assert !Contains("", Comma);
    OnePieceCell(mapping, "");
  }

  /**
   * A cell of two comma-free pieces that both strip to the sentinel (such as
   * `"ignore, ignore"`) yields no class, unless the map rewrites the sentinel.
   */
  lemma IgnoredTwice(mapping: Synonyms, a: string, b: string)
    requires !Contains(a, Comma) && !Contains(b, Comma)
    requires Strip(a) == Ignore && Strip(b) == Ignore && Canonical(mapping, Ignore) == Ignore
    ensures NormaliseCell(mapping, a + Comma + b) == {}
  {
    TwoPieceCell(mapping, a, b);
    assert {Ignore, Ignore} - {Ignore} == {};
  }

  /**
   * A synonym beside the sentinel in one cell (such as `"Bio Hon, ignore"`
   * with `Bio Hon => AP Biology`): only the synonym's canonical name is kept.
   */
  lemma SynonymBesideIgnore(mapping: Synonyms, a: string, b: string)
    requires !Contains(a, Comma) && !Contains(b, Comma)
    requires Strip(a) in mapping && mapping[Strip(a)] != Ignore
    requires Strip(b) == Ignore && Canonical(mapping, Ignore) == Ignore
    ensures NormaliseCell(mapping, a + Comma + b) == {mapping[Strip(a)]}
  {
    TwoPieceCell(mapping, a, b);
    assert {mapping[Strip(a)], Ignore} - {Ignore} == {mapping[Strip(a)]};
  }
}
