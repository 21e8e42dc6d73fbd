/** Ground-truth checking against the LETTUCE vector search
    (lettuce/FedLettuce/groundtruth_checking.py): ask the CLI for the top-k concepts of every
    informal drug name and flag the rows whose expected output is not among them, after
    normalising both sides. Running the CLI and parsing its output with `ast.literal_eval` are
    parameters: `runCli` gives the standard output for a command line (`None` when starting the
    process raises), `literalEval` gives the parsed records (`None` when parsing raises). */
module GroundTruth {
  import opened Wrappers
  import opened Seqs
  import opened Text

  // ---------------------------------------------------------------------------------------
  // standardise_text (ASCII: `\w` is [A-Za-z0-9_], `lower` folds A-Z only)
  // ---------------------------------------------------------------------------------------

  predicate IsWordChar(c: char) {
    ('a' <= c <= 'z') || ('A' <= c <= 'Z') || ('0' <= c <= '9') || c == '_'
  }

  predicate IsUpper(c: char) {
    'A' <= c <= 'Z'
  }

  /** `re.sub(r'\W+', '', s)`: removing every run of non-word characters removes each of them. */
  function DeleteNonWord(s: string): (r: string)
    ensures |r| <= |s|
  {
    if s == [] then []
    else (if IsWordChar(s[0]) then [s[0]] else []) + DeleteNonWord(s[1..])
  }

  /** `standardise_text`: lower-case, strip, then delete every non-word character. */
  function Standardise(text: string): (r: string)
    ensures forall i :: 0 <= i < |r| ==> IsWordChar(r[i]) && !IsUpper(r[i])
  {
    var lowered := Lower(text);
    var stripped := Strip(lowered);
    var r := DeleteNonWord(stripped);
    assert forall i :: 0 <= i < |r| ==> IsWordChar(r[i]) && !IsUpper(r[i]) by {
      LowerNoUpper(text);
      StripChars(lowered);
      DeleteNonWordKeeps(stripped);
      forall i | 0 <= i < |r| ensures IsWordChar(r[i]) && !IsUpper(r[i]) {
        assert r[i] in r;
      }
    }
    r
  }

  lemma LowerNoUpper(s: string)
    ensures forall c :: c in Lower(s) ==> !IsUpper(c)
  {
    forall c | c in Lower(s) ensures !IsUpper(c) {
      var i :| 0 <= i < |Lower(s)| && Lower(s)[i] == c;
    }
  }

  /** `DeleteNonWord` keeps word characters of its argument only. */
  lemma {:induction false} DeleteNonWordKeeps(s: string)
    ensures forall c :: c in DeleteNonWord(s) ==> c in s && IsWordChar(c)
  {
    if s != [] {
      DeleteNonWordKeeps(s[1..]);
    }
  }

  /** ... and all of them: a text of word characters is left as it is. */
  lemma {:induction false} DeleteNonWordFixed(s: string)
    requires forall i :: 0 <= i < |s| ==> IsWordChar(s[i])
    ensures DeleteNonWord(s) == s
  {
    if s != [] {
      DeleteNonWordFixed(s[1..]);
    }
  }

  lemma {:induction false} DeleteNonWordAppend(a: string, b: string)
    ensures DeleteNonWord(a + b) == DeleteNonWord(a) + DeleteNonWord(b)
  {
    if a != [] {
      assert (a + b)[1..] == a[1..] + b;
      DeleteNonWordAppend(a[1..], b);
    } else {
      assert a + b == b;
    }
  }

  lemma {:induction false} DeleteNonWordStripLeft(s: string)
    ensures DeleteNonWord(StripLeft(s)) == DeleteNonWord(s)
  {
    if s == [] || !IsSpace(s[0]) {
      assert StripLeft(s) == s;
    } else {
      var t := s[1..];
      DeleteNonWordStripLeft(t);
      assert StripLeft(s) == StripLeft(t);
      assert !IsWordChar(s[0]);
      assert DeleteNonWord(s) == [] + DeleteNonWord(t);
    }
  }

  lemma {:induction false} DeleteNonWordStripRight(s: string)
    ensures DeleteNonWord(StripRight(s)) == DeleteNonWord(s)
  {
    if s != [] && IsSpace(s[|s| - 1]) {
      var p := s[..|s| - 1];
      DeleteNonWordStripRight(p);
      assert s == p + [s[|s| - 1]];
      DeleteNonWordAppend(p, [s[|s| - 1]]);
      assert DeleteNonWord([s[|s| - 1]]) == [];
    }
  }

  /** Deleting the non-word characters of a stripped text deletes those of the text: the
      whitespace `strip` removes is made of non-word characters. */
  lemma DeleteNonWordStrip(s: string)
    ensures DeleteNonWord(Strip(s)) == DeleteNonWord(s)
  {
    DeleteNonWordStripLeft(s);
    DeleteNonWordStripRight(StripLeft(s));
  }

  /** Stripping never changes the result of `standardise_text`. */
  lemma StripRedundant(text: string)
    ensures Standardise(text) == DeleteNonWord(Lower(text))
  {
    DeleteNonWordStrip(Lower(text));
  }

  /** Standardising twice is standardising once. */
  lemma StandardiseIdempotent(text: string)
    ensures Standardise(Standardise(text)) == Standardise(text)
  {
    var r := Standardise(text);
    assert Lower(r) == r;
    StripRedundant(r);
    DeleteNonWordFixed(r);
  }

  /** Texts that differ only in letter case standardise alike. */
  lemma StandardiseCaseInsensitive(s: string, t: string)
    requires |s| == |t| && forall i :: 0 <= i < |s| ==> LowerChar(s[i]) == LowerChar(t[i])
    ensures Standardise(s) == Standardise(t)
  {
    assert Lower(s) == Lower(t);
  }

  lemma DemoLower()
    ensures Lower("aceTaminophen") == "acetaminophen"
    ensures Lower("AcetamInophen") == "acetaminophen"
  {
  }

  lemma DemoWord()
    ensures DeleteNonWord("acetaminophen") == "acetaminophen"
  {
    var s := "acetaminophen";
    assert forall i :: 0 <= i < |s| ==> IsWordChar(s[i]);
    DeleteNonWordFixed(s);
  }

  /** The demo row whose informal name is 'aceTaminophen' and whose expected output is
      'AcetamInophen' matches. */
  lemma AcetaminophenMatches()
    ensures Standardise("aceTaminophen") == Standardise("AcetamInophen") == "acetaminophen"
  {
    DemoLower();
    DemoWord();
    StripRedundant("aceTaminophen");
    StripRedundant("AcetamInophen");
  }

  // ---------------------------------------------------------------------------------------
  // call_lettuce_simple
  // ---------------------------------------------------------------------------------------

  /** The `informal_names` argument: a single string or a list of strings. */
  datatype Names = Single(name: string) | Many(names: seq<string>)

  /** A single string is wrapped into a one-element list; a list is used as it is. */
  function Terms(informalNames: Names): (terms: seq<string>)
    ensures informalNames.Single? ==> terms == [informalNames.name]
    ensures informalNames.Many? ==> terms == informalNames.names
  {
    match informalNames
    case Single(name) => [name]
    case Many(names) => names
  }

  const CommandPrefix: seq<string> := ["uv", "run", "--env-file", ".env", "lettuce-cli", "--informal_names"]

  /** The CLI command line: the fixed prefix, the terms, then the LLM switch (`--use_llm` or
      `--no-use_llm`). */
  function Command(informalNames: Names, useLlm: bool): (cmd: seq<string>)
    ensures |cmd| == |CommandPrefix| + |Terms(informalNames)| + 1
    ensures cmd[..|CommandPrefix|] == CommandPrefix
    ensures cmd[|CommandPrefix|..|cmd| - 1] == Terms(informalNames)
    ensures cmd[|cmd| - 1] == if useLlm then "--use_llm" else "--no-use_llm"
  {
    var cmd := CommandPrefix + Terms(informalNames) + [if useLlm then "--use_llm" else "--no-use_llm"];
    assert cmd[|CommandPrefix|..|cmd| - 1] == Terms(informalNames);
    cmd
  }

  const EndMarker: string := "-------------- End ---------------"

  /** The text after the end marker: newlines are removed, the marker is searched for, and the
      slice starts `len(marker)` characters after the position `find` returns. */
  function ResultsText(stdout: string): string {
    var cleanRawOutput := RemoveAll(stdout, '\n');
    var endmarkerPos := Find(cleanRawOutput, EndMarker);
    Drop(cleanRawOutput, endmarkerPos + |EndMarker|)
  }

  /** The results text holds no newline. */
  lemma ResultsTextNewlineFree(stdout: string)
    ensures '\n' !in ResultsText(stdout)
  {
    var clean := RemoveAll(stdout, '\n');
    var k := Find(clean, EndMarker) + |EndMarker|;
    if k <= |clean| {
      assert forall c :: c in clean[k..] ==> c in clean;
    }
  }

  /** When the marker occurs, the results text is what follows its first occurrence; when it
      does not, `find` gives -1 and the slice starts at offset `len(marker) - 1` = 33. */
  lemma ResultsTextCases(stdout: string)
    ensures |EndMarker| == 34
    ensures var clean := RemoveAll(stdout, '\n');
      && (Find(clean, EndMarker) >= 0 ==>
            clean[Find(clean, EndMarker)..Find(clean, EndMarker) + 34] == EndMarker
            && ResultsText(stdout) == clean[Find(clean, EndMarker) + 34..])
      && (Find(clean, EndMarker) == -1 ==> ResultsText(stdout) == Drop(clean, 33))
  {
  }

  /** One entry of the vector search results, with the keys `.get` may find missing. */
  datatype Hit = Hit(concept: Option<string>, content: Option<string>)

  /** A parsed query record; `None` stands for a missing key, whose lookup raises. */
  datatype QueryRecord = QueryRecord(query: Option<string>, vectorSearchResults: Option<seq<Hit>>)

  /** `d.get('concept') or d.get('content')`: the concept unless it is missing or empty. */
  function TopKEntry(d: Hit): Option<string> {
    if d.concept.Some? && d.concept.value != "" then d.concept else d.content
  }

  predicate WellFormed(r: QueryRecord) {
    r.query.Some? && r.vectorSearchResults.Some?
  }

  /** The `(query, top-k list)` assignments the records make, in order. */
  function Entries(records: seq<QueryRecord>): seq<(string, seq<Option<string>>)>
    requires forall i :: 0 <= i < |records| ==> WellFormed(records[i])
  {
    seq(|records|, i requires 0 <= i < |records| && WellFormed(records[i]) =>
      (records[i].query.value, TopKList(records[i].vectorSearchResults.value)))
  }

  function TopKList(hits: seq<Hit>): seq<Option<string>> {
    seq(|hits|, i requires 0 <= i < |hits| => TopKEntry(hits[i]))
  }

  /** The dict the records produce, or `None` when a record lacks a key (the lookup raises and
      the exception handler returns `None`). */
  function ResultsOf(records: seq<QueryRecord>): Option<map<string, seq<Option<string>>>> {
    if forall i :: 0 <= i < |records| ==> WellFormed(records[i]) then Some(ToMap(Entries(records)))
    else None
  }

  /** The dict maps each query to the top-k list of its last record. */
  lemma ResultsLastWins(records: seq<QueryRecord>, q: string)
    requires ResultsOf(records).Some?
    ensures q in ResultsOf(records).value <==> exists i :: 0 <= i < |records| && records[i].query == Some(q)
    ensures forall i ::
      (0 <= i < |records| && records[i].query == Some(q) && forall j :: i < j < |records| ==> records[j].query != Some(q))
      ==> ResultsOf(records).value[q] == TopKList(records[i].vectorSearchResults.value)
  {
    var e := Entries(records);
    ToMapLastWins(e, q);
    assert forall i :: 0 <= i < |records| ==> (e[i].0 == q <==> records[i].query == Some(q));
  }

  /** The records-to-dict loop of `call_lettuce_simple`. */
  method ResultsDict(cleanResultsDict: seq<QueryRecord>) returns (resultsDict: Option<map<string, seq<Option<string>>>>)
    ensures resultsDict == ResultsOf(cleanResultsDict)
  {
    var d: map<string, seq<Option<string>>> := map[];
    for i := 0 to |cleanResultsDict|
      invariant forall j :: 0 <= j < i ==> WellFormed(cleanResultsDict[j])
      invariant d == ToMap(Entries(cleanResultsDict[..i]))
    {
      var queryDict := cleanResultsDict[i];
      if queryDict.vectorSearchResults.None? || queryDict.query.None? {
        return None;
      }
      var topkResults := TopKList(queryDict.vectorSearchResults.value);
      var informalTerm := queryDict.query.value;
      d := d[informalTerm := topkResults];
      assert Entries(cleanResultsDict[..i + 1]) == Entries(cleanResultsDict[..i]) + [(informalTerm, topkResults)];
    }
    assert cleanResultsDict[..|cleanResultsDict|] == cleanResultsDict;
    resultsDict := Some(d);
  }

  /** What `call_lettuce_simple` returns for given CLI behaviour. */
  function CliResults(informalNames: Names, useLlm: bool, runCli: seq<string> -> Option<string>,
                      literalEval: string -> Option<seq<QueryRecord>>): Option<map<string, seq<Option<string>>>>
  {
    match runCli(Command(informalNames, useLlm))
    case None => None
    case Some(stdout) =>
      match literalEval(ResultsText(stdout))
      case None => None
      case Some(records) => ResultsOf(records)
  }

  /** `call_lettuce_simple` (vector search only, `--no-use_llm`). The return code is only
      reported, so it does not change the result. */
  method CallLettuceSimple(informalNames: Names, runCli: seq<string> -> Option<string>,
                           literalEval: string -> Option<seq<QueryRecord>>)
    returns (resultsDict: Option<map<string, seq<Option<string>>>>)
    ensures resultsDict == CliResults(informalNames, false, runCli, literalEval)
  {
    var terms := Terms(informalNames);
    var cmd := CommandPrefix + terms + ["--no-use_llm"];
    var stdout := runCli(cmd);
    if stdout.None? {
      return None;
    }
    var cleanResultsStr := ResultsText(stdout.value);
    var cleanResultsDict := literalEval(cleanResultsStr);
    if cleanResultsDict.None? {
      return None;
    }
    resultsDict := ResultsDict(cleanResultsDict.value);
  }

  // ---------------------------------------------------------------------------------------
  // ground_truth_checker
  // ---------------------------------------------------------------------------------------

  /** One data-frame row. */
  datatype Row = Row(inputData: string, expectedOutput: string)

  function Inputs(rows: seq<Row>): (inputs: seq<string>)
    ensures |inputs| == |rows| && forall i :: 0 <= i < |rows| ==> inputs[i] == rows[i].inputData
  {
    seq(|rows|, i requires 0 <= i < |rows| => rows[i].inputData)
  }

  predicate AllPresent(topk: seq<Option<string>>) {
    forall j :: 0 <= j < |topk| ==> topk[j].Some?
  }

  /** `[standardise_text(s) for s in top5_vecsearch]`, defined when no entry is `None`. */
  function StandardiseAll(topk: seq<Option<string>>): (r: seq<string>)
    requires AllPresent(topk)
    ensures |r| == |topk|
  {
    seq(|topk|, j requires 0 <= j < |topk| && topk[j].Some? => Standardise(topk[j].value))
  }

  /** Some top-k entry standardises to the same text as the ground truth. */
  predicate Matches(groundTruth: string, topk: seq<Option<string>>) {
    exists j :: 0 <= j < |topk| && topk[j].Some? && Standardise(topk[j].value) == Standardise(groundTruth)
  }

  /** The row's term has results, and none of them matches its expected output. */
  predicate Mismatched(row: Row, resultsDict: map<string, seq<Option<string>>>) {
    row.inputData in resultsDict && !Matches(row.expectedOutput, resultsDict[row.inputData])
  }

  /** The terms of the mismatched rows, in row order. */
  function Flagged(rows: seq<Row>, resultsDict: map<string, seq<Option<string>>>): seq<string> {
    if rows == [] then []
    else
      var last := rows[|rows| - 1];
      Flagged(rows[..|rows| - 1], resultsDict) + (if Mismatched(last, resultsDict) then [last.inputData] else [])
  }

  /** Every row whose term has results can be checked: standardising `None` raises. */
  predicate Checkable(rows: seq<Row>, resultsDict: map<string, seq<Option<string>>>) {
    forall i :: 0 <= i < |rows| && rows[i].inputData in resultsDict ==> AllPresent(resultsDict[rows[i].inputData])
  }

  /** Why a check raises instead of returning a list. */
  datatype CheckError = NoResults | MissingEntry(term: string)

  /** `standardise_text(ground_truth) in [standardise_text(s) for s in top5_vecsearch]` is
      `Matches`. */
  lemma StandardisedIn(groundTruth: string, topk: seq<Option<string>>)
    requires AllPresent(topk)
    ensures Standardise(groundTruth) in StandardiseAll(topk) <==> Matches(groundTruth, topk)
  {
    var standardised := StandardiseAll(topk);
    if Standardise(groundTruth) in standardised {
      var j :| 0 <= j < |standardised| && standardised[j] == Standardise(groundTruth);
      assert topk[j].Some? && Standardise(topk[j].value) == Standardise(groundTruth);
    }
    if Matches(groundTruth, topk) {
      var j :| 0 <= j < |topk| && topk[j].Some? && Standardise(topk[j].value) == Standardise(groundTruth);
      assert standardised[j] == Standardise(groundTruth);
    }
  }

  /** One row against the dict: `Success(true)` when its term is to be flagged, a failure when
      a top-k entry is `None` and standardising it raises. */
  method CheckRow(row: Row, resultsDict: map<string, seq<Option<string>>>) returns (r: Result<bool, CheckError>)
    ensures r.Success? <==> (row.inputData in resultsDict ==> AllPresent(resultsDict[row.inputData]))
    ensures r.Success? ==> r.value == Mismatched(row, resultsDict)
    ensures r.Failure? ==> r.error == MissingEntry(row.inputData)
  {
    var inputTerm := row.inputData;
    var groundTruth := row.expectedOutput;
    if inputTerm in resultsDict {
      var top5Vecsearch := resultsDict[inputTerm];
      if !AllPresent(top5Vecsearch) {
        return Failure(MissingEntry(inputTerm));
      }
      var standardised := StandardiseAll(top5Vecsearch);
      StandardisedIn(groundTruth, top5Vecsearch);
      return Success(Standardise(groundTruth) !in standardised);
    }
    return Success(false);
  }

  lemma CheckableSnoc(rows: seq<Row>, row: Row, resultsDict: map<string, seq<Option<string>>>)
    ensures Checkable(rows + [row], resultsDict) <==>
      Checkable(rows, resultsDict) && (row.inputData in resultsDict ==> AllPresent(resultsDict[row.inputData]))
  {
    var all := rows + [row];
    assert all[|rows|] == row;
    if Checkable(rows, resultsDict) && (row.inputData in resultsDict ==> AllPresent(resultsDict[row.inputData])) {
      forall i | 0 <= i < |all| && all[i].inputData in resultsDict ensures AllPresent(resultsDict[all[i].inputData]) {
        if i < |rows| {
          assert all[i] == rows[i];
        }
      }
    }
    if Checkable(all, resultsDict) {
      forall i | 0 <= i < |rows| && rows[i].inputData in resultsDict ensures AllPresent(resultsDict[rows[i].inputData]) {
        assert all[i] == rows[i];
      }
    }
  }

  lemma FlaggedSnoc(rows: seq<Row>, row: Row, resultsDict: map<string, seq<Option<string>>>)
    ensures Flagged(rows + [row], resultsDict) ==
      Flagged(rows, resultsDict) + (if Mismatched(row, resultsDict) then [row.inputData] else [])
  {
    assert (rows + [row])[..|rows|] == rows;
  }

  /** The row loop of `ground_truth_checker`, once the dict exists: the flagged terms, or the
      first row whose top-k list holds `None`. */
  method CheckRows(rows: seq<Row>, resultsDict: map<string, seq<Option<string>>>)
    returns (r: Result<seq<string>, CheckError>)
    ensures r.Success? <==> Checkable(rows, resultsDict)
    ensures r.Success? ==> r.value == Flagged(rows, resultsDict)
  {
    var incorrectlyMapped: seq<string> := [];
    for i := 0 to |rows|
      invariant Checkable(rows[..i], resultsDict)
      invariant incorrectlyMapped == Flagged(rows[..i], resultsDict)
    {
      var row := rows[i];
      assert rows[..i + 1] == rows[..i] + [row];
      CheckableSnoc(rows[..i], row, resultsDict);
      FlaggedSnoc(rows[..i], row, resultsDict);
      var checked := CheckRow(row, resultsDict);
      if checked.Failure? {
        assert !Checkable(rows, resultsDict) by {
          assert rows[i].inputData in resultsDict && !AllPresent(resultsDict[rows[i].inputData]);
        }
        return Failure(checked.error);
      }
      if checked.value {
        incorrectlyMapped := incorrectlyMapped + [row.inputData];
      }
    }
    assert rows[..|rows|] == rows;
    return Success(incorrectlyMapped);
  }

  /** `ground_truth_checker`: ask the CLI about every row's term, then check the rows. When the
      CLI call failed the dict is `None` and the first membership test raises, so only an
      empty data frame gets through. */
  method GroundTruthChecker(rows: seq<Row>, runCli: seq<string> -> Option<string>,
                            literalEval: string -> Option<seq<QueryRecord>>)
    returns (r: Result<seq<string>, CheckError>)
    ensures var results := CliResults(Many(Inputs(rows)), false, runCli, literalEval);
      && (results.None? ==> r == if rows == [] then Success([]) else Failure(NoResults))
      && (results.Some? ==> (r.Success? <==> Checkable(rows, results.value)))
      && (results.Some? && r.Success? ==> r.value == Flagged(rows, results.value))
  {
    var informalNames := Inputs(rows);
    var resultsDict := CallLettuceSimple(Many(informalNames), runCli, literalEval);
    if resultsDict.None? {
      if rows == [] {
        return Success([]);
      }
      return Failure(NoResults);
    }
    r := CheckRows(rows, resultsDict.value);
  }

  /** A flagged term comes from a mismatched row. */
  lemma {:induction false} FlaggedFrom(rows: seq<Row>, resultsDict: map<string, seq<Option<string>>>, t: string)
    returns (i: nat)
    requires t in Flagged(rows, resultsDict)
    ensures i < |rows| && rows[i].inputData == t && Mismatched(rows[i], resultsDict)
  {
    var p, x := rows[..|rows| - 1], rows[|rows| - 1];
    if t in Flagged(p, resultsDict) {
      i := FlaggedFrom(p, resultsDict, t);
      assert rows[i] == p[i];
    } else {
      i := |rows| - 1;
    }
  }

  /** The term of a mismatched row is flagged. */
  lemma {:induction false} MismatchedFlagged(rows: seq<Row>, resultsDict: map<string, seq<Option<string>>>, i: nat)
    requires i < |rows| && Mismatched(rows[i], resultsDict)
    ensures rows[i].inputData in Flagged(rows, resultsDict)
  {
    var p, x := rows[..|rows| - 1], rows[|rows| - 1];
    if i < |p| {
      assert rows[i] == p[i];
      MismatchedFlagged(p, resultsDict, i);
    }
  }

  /** A term is flagged exactly when some row with that term is mismatched; in particular a
      term the CLI returned no results for is never flagged. */
  lemma FlaggedIff(rows: seq<Row>, resultsDict: map<string, seq<Option<string>>>, t: string)
    ensures t in Flagged(rows, resultsDict) <==>
      exists i :: 0 <= i < |rows| && rows[i].inputData == t && Mismatched(rows[i], resultsDict)
    ensures t !in resultsDict ==> t !in Flagged(rows, resultsDict)
  {
    if t in Flagged(rows, resultsDict) {
      var i := FlaggedFrom(rows, resultsDict, t);
    }
    forall i | 0 <= i < |rows| && rows[i].inputData == t && Mismatched(rows[i], resultsDict)
      ensures t in Flagged(rows, resultsDict)
    {
      MismatchedFlagged(rows, resultsDict, i);
    }
  }

  /** The flagged terms are a subsequence of the input terms, in row order. */
  lemma {:induction false} FlaggedSubsequence(rows: seq<Row>, resultsDict: map<string, seq<Option<string>>>)
    ensures IsSubsequence(Flagged(rows, resultsDict), Inputs(rows))
  {
    if rows != [] {
      var p, x := rows[..|rows| - 1], rows[|rows| - 1];
      FlaggedSubsequence(p, resultsDict);
      assert rows == p + [x];
      FlaggedSnoc(p, x, resultsDict);
      assert Inputs(rows)[..|rows| - 1] == Inputs(p);
      var f := Flagged(rows, resultsDict);
      if Mismatched(x, resultsDict) {
        assert f[..|f| - 1] == Flagged(p, resultsDict);
      } else {
        assert f == Flagged(p, resultsDict);
      }
    }
  }

  /** Checking rows in two parts flags the concatenation of both parts' terms, so a repeated
      mismatched row is flagged once per occurrence. */
  lemma {:induction false} FlaggedAppend(a: seq<Row>, b: seq<Row>, resultsDict: map<string, seq<Option<string>>>)
    ensures Flagged(a + b, resultsDict) == Flagged(a, resultsDict) + Flagged(b, resultsDict)
    decreases |b|
  {
    if b == [] {
      assert a + b == a;
    } else {
      var b', x := b[..|b| - 1], b[|b| - 1];
      var tail := if Mismatched(x, resultsDict) then [x.inputData] else [];
      calc {
        Flagged(a + b, resultsDict);
        { assert a + b == (a + b') + [x]; }
        Flagged((a + b') + [x], resultsDict);
        { FlaggedSnoc(a + b', x, resultsDict); }
        Flagged(a + b', resultsDict) + tail;
        { FlaggedAppend(a, b', resultsDict); }
        Flagged(a, resultsDict) + (Flagged(b', resultsDict) + tail);
        { assert b == b' + [x]; FlaggedSnoc(b', x, resultsDict); }
        Flagged(a, resultsDict) + Flagged(b, resultsDict);
      }
    }
  }
}
