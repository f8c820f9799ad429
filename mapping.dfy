/**
 * The synonym map of the survey parser: the `raw => canonical` line format of
 * the mapping file and the one-step rewrite of a token through it.
 */
module Mapping {
  import opened Wrappers
  import opened Text

  const Arrow: string := "=>"

  type Synonyms = map<string, string>

  /** A token is replaced by its synonym when it is a key, and kept otherwise. */
  function Canonical(mapping: Synonyms, token: string): (r: string)
    ensures token in mapping ==> r in mapping.Values
    ensures token !in mapping ==> r == token
  {
    if token !in mapping then token else mapping[token]
  }

  /** Index (0-based) of the first mapping line that has no separator. */
  datatype MappingError = MissingArrow(line: nat)

  /** The key a line contributes: the stripped first piece of its split on the separator. */
  function LineKey(line: string): string {
    Strip(Split(line, Arrow)[0])
  }

  /**
   * One line of the mapping file: its key and its value, or None when the
   * line has no separator (the second piece of its split does not exist).
   */
  function ParseLine(line: string): (r: Option<(string, string)>)
    ensures r.Some? <==> Contains(line, Arrow)
    ensures r.Some? ==> r.value.0 == LineKey(line)
  {
    SplitIsSingleIff(line, Arrow);
    var parts := Split(line, Arrow);
    if |parts| < 2 then None else Some((Strip(parts[0]), Strip(parts[1])))
  }

  /**
   * The key is the stripped text before the first separator, and the value
   * the stripped text between the first separator and the second (or the end).
   */
  lemma ParseLineFields(line: string)
    requires Contains(line, Arrow)
    ensures Find(line, Arrow) >= 0
            && var i := Find(line, Arrow);
               var rest := line[i + |Arrow|..];
               var j := Find(rest, Arrow);
               ParseLine(line) == Some((Strip(line[..i]), Strip(if j == -1 then rest else rest[..j])))
  {
    FindNone(line, Arrow);
    SplitFirstTwo(line, Arrow);
    var parts := Split(line, Arrow);
    assert ParseLine(line) == Some((Strip(parts[0]), Strip(parts[1])));
  }

  /**
   * Folds the parsed lines into a map in file order: a later entry for the
   * same key replaces the earlier one, and the first unparsable line fails.
   */
  function Collect(entries: seq<Option<(string, string)>>): (r: Result<Synonyms, MappingError>)
    ensures r.Err? <==> exists j :: 0 <= j < |entries| && entries[j].None?
    ensures r.Err? ==> r.error.line < |entries| && entries[r.error.line].None?
                       && forall j :: 0 <= j < r.error.line ==> entries[j].Some?
    ensures r.Ok? ==> r.value.Keys == set j | 0 <= j < |entries| :: entries[j].value.0
    decreases |entries|
  {
    if |entries| == 0 then
      Ok(map[])
    else
      var last := |entries| - 1;
      var init := entries[..last];
      assert forall j :: 0 <= j < last ==> init[j] == entries[j];
      match Collect(init)
      case Err(e) => Err(e)
      case Ok(m) =>
        match entries[last]
        case None => Err(MissingArrow(last))
        case Some(entry) =>
          assert (set j | 0 <= j < |entries| :: entries[j].value.0)
              == (set j | 0 <= j < last :: init[j].value.0) + {entry.0};
          Ok(m[entry.0 := entry.1])
  }

  /** The value `Collect` records for a key is the one of the last entry with that key. */
  lemma {:induction false} LastEntryWins(entries: seq<Option<(string, string)>>, j: nat)
    requires Collect(entries).Ok? && j < |entries|
    requires forall j' :: j < j' < |entries| ==> entries[j'].value.0 != entries[j].value.0
    ensures entries[j].value.0 in Collect(entries).value
    ensures Collect(entries).value[entries[j].value.0] == entries[j].value.1
    decreases |entries|
  {
    var last := |entries| - 1;
    var init := entries[..last];
    assert forall i :: 0 <= i < last ==> init[i] == entries[i];
    if j < last {
      LastEntryWins(init, j);
    }
  }

  /** The mapping file: every line parsed on its own, then collected in order. */
  function ParseMapping(lines: seq<string>): (r: Result<Synonyms, MappingError>)
    ensures r.Err? <==> exists j :: 0 <= j < |lines| && ParseLine(lines[j]).None?
    ensures r.Err? ==> r.error.line < |lines| && ParseLine(lines[r.error.line]).None?
                       && forall j :: 0 <= j < r.error.line ==> ParseLine(lines[j]).Some?
  {
    var entries := seq(|lines|, j requires 0 <= j < |lines| => ParseLine(lines[j]));
    assert forall j :: 0 <= j < |lines| ==> entries[j] == ParseLine(lines[j]);
    Collect(entries)
  }

  /** Every line contributes its key to the mapping. */
  lemma LineKeysKept(lines: seq<string>)
    requires ParseMapping(lines).Ok?
    ensures forall j :: 0 <= j < |lines| ==> LineKey(lines[j]) in ParseMapping(lines).value
  {
    var entries := seq(|lines|, j requires 0 <= j < |lines| => ParseLine(lines[j]));
    var keys := Collect(entries).value.Keys;
    forall j | 0 <= j < |lines| ensures LineKey(lines[j]) in keys {
      assert entries[j].value.0 in keys;
    }
  }

  /** Every key `Collect` records comes from some entry. */
  lemma CollectKeysFromEntries(entries: seq<Option<(string, string)>>)
    requires Collect(entries).Ok?
    ensures forall k :: k in Collect(entries).value ==>
              exists j :: 0 <= j < |entries| && entries[j].Some? && entries[j].value.0 == k
  {
    forall k | k in Collect(entries).value
      ensures exists j :: 0 <= j < |entries| && entries[j].Some? && entries[j].value.0 == k
    {
      assert k in set j | 0 <= j < |entries| :: entries[j].value.0;
    }
  }

  /** Every key of the mapping is the key of some line. */
  lemma MappingKeysFromLines(lines: seq<string>)
    requires ParseMapping(lines).Ok?
    ensures forall k :: k in ParseMapping(lines).value ==>
              exists j :: 0 <= j < |lines| && LineKey(lines[j]) == k
  {
    var entries := seq(|lines|, j requires 0 <= j < |lines| => ParseLine(lines[j]));
    CollectKeysFromEntries(entries);
    forall k | k in Collect(entries).value ensures exists j :: 0 <= j < |lines| && LineKey(lines[j]) == k {
      var j :| 0 <= j < |entries| && entries[j].Some? && entries[j].value.0 == k;
      assert entries[j] == ParseLine(lines[j]);
    }
  }

  /** The value recorded for a key is the one on the last line with that key. */
  lemma LastLineWins(lines: seq<string>, j: nat)
    requires ParseMapping(lines).Ok? && j < |lines|
    requires forall j' :: j < j' < |lines| ==> LineKey(lines[j']) != LineKey(lines[j])
    ensures ParseLine(lines[j]).Some?
    ensures LineKey(lines[j]) in ParseMapping(lines).value
    ensures ParseMapping(lines).value[LineKey(lines[j])] == ParseLine(lines[j]).value.1
  {
    var entries := seq(|lines|, i requires 0 <= i < |lines| => ParseLine(lines[i]));
    LastEntryWins(entries, j);
  }
}
