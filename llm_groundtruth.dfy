/** Ground-truth checking against the LETTUCE LLM answer
    (lettuce/FedLettuce/llm_groundtruth_checking.py): the CLI is run with `--use_llm`, each
    query is mapped to the single answer the LLM gave, and a row is flagged when its expected
    output and the answer differ after normalising both. Running the CLI and
    `ast.literal_eval` are parameters, as in the vector-search checker; `standardise_text`
    and the end-marker slicing are the same code as there and are shared with it. */
module LlmGroundTruth {
  import opened Wrappers
  import opened Seqs
  import opened GroundTruth

  /** A parsed query record; `None` stands for a missing key, whose lookup raises. */
  datatype LlmRecord = LlmRecord(query: Option<string>, llmAnswer: Option<string>)

  predicate WellFormed(r: LlmRecord) {
    r.query.Some? && r.llmAnswer.Some?
  }

  /** The `(query, llm_answer)` assignments the records make, in order. */
  function Entries(records: seq<LlmRecord>): seq<(string, string)>
    requires forall i :: 0 <= i < |records| ==> WellFormed(records[i])
  {
    seq(|records|, i requires 0 <= i < |records| && WellFormed(records[i]) =>
      (records[i].query.value, records[i].llmAnswer.value))
  }

  /** The dict the records produce, or `None` when a record lacks a key (the lookup raises and
      the exception handler returns `None`). */
  function ResultsOf(records: seq<LlmRecord>): Option<map<string, string>> {
    if forall i :: 0 <= i < |records| ==> WellFormed(records[i]) then Some(ToMap(Entries(records)))
    else None
  }

  /** The dict maps each query to the answer of its last record. */
  lemma ResultsLastWins(records: seq<LlmRecord>, q: string)
    requires ResultsOf(records).Some?
    ensures q in ResultsOf(records).value <==> exists i :: 0 <= i < |records| && records[i].query == Some(q)
    ensures forall i ::
      (0 <= i < |records| && records[i].query == Some(q) && forall j :: i < j < |records| ==> records[j].query != Some(q))
      ==> ResultsOf(records).value[q] == records[i].llmAnswer.value
  {
    var e := Entries(records);
    ToMapLastWins(e, q);
    assert forall i :: 0 <= i < |records| ==> (e[i].0 == q <==> records[i].query == Some(q));
  }

  /** The records-to-dict loop of `call_lettuce_simple`. */
  method ResultsDict(cleanResultsDict: seq<LlmRecord>) returns (resultsDict: Option<map<string, string>>)
    ensures resultsDict == ResultsOf(cleanResultsDict)
  {
    var d: map<string, string> := map[];
    for i := 0 to |cleanResultsDict|
      invariant forall j :: 0 <= j < i ==> WellFormed(cleanResultsDict[j])
      invariant d == ToMap(Entries(cleanResultsDict[..i]))
    {
      var queryDict := cleanResultsDict[i];
      if queryDict.llmAnswer.None? || queryDict.query.None? {
        return None;
      }
      var llmAnswer := queryDict.llmAnswer.value;
      var informalTerm := queryDict.query.value;
      d := d[informalTerm := llmAnswer];
      assert Entries(cleanResultsDict[..i + 1]) == Entries(cleanResultsDict[..i]) + [(informalTerm, llmAnswer)];
    }
    assert cleanResultsDict[..|cleanResultsDict|] == cleanResultsDict;
    resultsDict := Some(d);
  }

  /** What `call_lettuce_simple` returns for given CLI behaviour. */
  function CliResults(informalNames: Names, runCli: seq<string> -> Option<string>,
                      literalEval: string -> Option<seq<LlmRecord>>): Option<map<string, string>>
  {
    match runCli(Command(informalNames, true))
    case None => None
    case Some(stdout) =>
      match literalEval(ResultsText(stdout))
      case None => None
      case Some(records) => ResultsOf(records)
  }

  /** `call_lettuce_simple` (with `--use_llm`). The return code is only reported, so it does
      not change the result. */
  method CallLettuceSimple(informalNames: Names, runCli: seq<string> -> Option<string>,
                           literalEval: string -> Option<seq<LlmRecord>>)
    returns (resultsDict: Option<map<string, string>>)
    ensures resultsDict == CliResults(informalNames, runCli, literalEval)
  {
    var terms := Terms(informalNames);
    var cmd := CommandPrefix + terms + ["--use_llm"];
    var stdout := runCli(cmd);
    if stdout.None? {
      return None;
    }
    var cleanResultsStr := ResultsText(stdout.value);
    var cleanResultsDict := literalEval(cleanResultsStr);
    if cleanResultsDict.None? {
      return None;
    }
    resultsDict := ResultsDict(cleanResultsDict.value);
  }

  /** The row's term has an answer, and it differs from the expected output once both are
      standardised. */
  predicate Mismatched(row: Row, resultsDict: map<string, string>) {
    row.inputData in resultsDict && Standardise(row.expectedOutput) != Standardise(resultsDict[row.inputData])
  }

  /** The terms of the mismatched rows, in row order. */
  function Flagged(rows: seq<Row>, resultsDict: map<string, string>): seq<string> {
    if rows == [] then []
    else
      var last := rows[|rows| - 1];
      Flagged(rows[..|rows| - 1], resultsDict) + (if Mismatched(last, resultsDict) then [last.inputData] else [])
  }

  lemma FlaggedSnoc(rows: seq<Row>, row: Row, resultsDict: map<string, string>)
    ensures Flagged(rows + [row], resultsDict) ==
      Flagged(rows, resultsDict) + (if Mismatched(row, resultsDict) then [row.inputData] else [])
  {
    assert (rows + [row])[..|rows|] == rows;
  }

  /** The row loop of `llm_ground_truth_checker`, once the dict exists. */
  method CheckRows(rows: seq<Row>, resultsDict: map<string, string>) returns (incorrectlyMapped: seq<string>)
    ensures incorrectlyMapped == Flagged(rows, resultsDict)
  {
    incorrectlyMapped := [];
    for i := 0 to |rows|
      invariant incorrectlyMapped == Flagged(rows[..i], resultsDict)
    {
      var inputTerm := rows[i].inputData;
      var groundTruth := rows[i].expectedOutput;
      assert rows[..i + 1] == rows[..i] + [rows[i]];
      FlaggedSnoc(rows[..i], rows[i], resultsDict);
      if inputTerm in resultsDict {
        var predictedTerm := resultsDict[inputTerm];
        if Standardise(groundTruth) != Standardise(predictedTerm) {
          incorrectlyMapped := incorrectlyMapped + [inputTerm];
        }
      }
    }
    assert rows[..|rows|] == rows;
  }

  /** `llm_ground_truth_checker`: when the CLI call fails every input term is returned, in
      order; otherwise the mismatched rows' terms. */
  method LlmGroundTruthChecker(rows: seq<Row>, runCli: seq<string> -> Option<string>,
                               literalEval: string -> Option<seq<LlmRecord>>)
    returns (incorrectlyMapped: seq<string>)
    ensures var results := CliResults(Many(Inputs(rows)), runCli, literalEval);
      && (results.None? ==> incorrectlyMapped == Inputs(rows))
      && (results.Some? ==> incorrectlyMapped == Flagged(rows, results.value))
  {
    var informalNames := Inputs(rows);
    var resultsDict := CallLettuceSimple(Many(informalNames), runCli, literalEval);
    if resultsDict.None? {
      return informalNames;
    }
    incorrectlyMapped := CheckRows(rows, resultsDict.value);
  }

  /** A flagged term comes from a mismatched row. */
  lemma {:induction false} FlaggedFrom(rows: seq<Row>, resultsDict: map<string, string>, t: string)
    returns (i: nat)
    requires t in Flagged(rows, resultsDict)
    ensures i < |rows| && rows[i].inputData == t && Mismatched(rows[i], resultsDict)
  {
    var p, x := rows[..|rows| - 1], rows[|rows| - 1];
    if t in Flagged(p, resultsDict) {
      i := FlaggedFrom(p, resultsDict, t);
      assert rows[i] == p[i];
    } else {
      i := |rows| - 1;
    }
  }

  /** The term of a mismatched row is flagged. */
  lemma {:induction false} MismatchedFlagged(rows: seq<Row>, resultsDict: map<string, string>, i: nat)
    requires i < |rows| && Mismatched(rows[i], resultsDict)
    ensures rows[i].inputData in Flagged(rows, resultsDict)
  {
    var p, x := rows[..|rows| - 1], rows[|rows| - 1];
    if i < |p| {
      assert rows[i] == p[i];
      MismatchedFlagged(p, resultsDict, i);
      assert rows[i].inputData in Flagged(p, resultsDict);
    } else {
      assert rows[i] == x;
    }
  }

  /** A term is flagged exactly when some row with that term has an answer that does not
      standardise to its expected output; a term without an answer is never flagged. */
  lemma FlaggedIff(rows: seq<Row>, resultsDict: map<string, string>, t: string)
    ensures t in Flagged(rows, resultsDict) <==>
      exists i :: 0 <= i < |rows| && rows[i].inputData == t && Mismatched(rows[i], resultsDict)
    ensures t !in resultsDict ==> t !in Flagged(rows, resultsDict)
  {
    if t in Flagged(rows, resultsDict) {
      var i := FlaggedFrom(rows, resultsDict, t);
    }
    forall i | 0 <= i < |rows| && rows[i].inputData == t && Mismatched(rows[i], resultsDict)
      ensures t in Flagged(rows, resultsDict)
    {
      MismatchedFlagged(rows, resultsDict, i);
    }
  }

  /** An answer that differs from the expected output only in letter case is accepted. */
  lemma CaseOnlyDifferenceAccepted(row: Row, resultsDict: map<string, string>)
    requires row.inputData in resultsDict
    requires var answer := resultsDict[row.inputData];
      |answer| == |row.expectedOutput| &&
      forall i :: 0 <= i < |answer| ==> Text.LowerChar(answer[i]) == Text.LowerChar(row.expectedOutput[i])
    ensures !Mismatched(row, resultsDict)
  {
    StandardiseCaseInsensitive(resultsDict[row.inputData], row.expectedOutput);
  }

  /** The flagged terms are a subsequence of the input terms, in row order. */
  lemma {:induction false} FlaggedSubsequence(rows: seq<Row>, resultsDict: map<string, string>)
    ensures IsSubsequence(Flagged(rows, resultsDict), Inputs(rows))
  {
    if rows != [] {
      var p, x := rows[..|rows| - 1], rows[|rows| - 1];
      FlaggedSubsequence(p, resultsDict);
      assert rows == p + [x];
      FlaggedSnoc(p, x, resultsDict);
      assert Inputs(rows)[..|rows| - 1] == Inputs(p);
      var f := Flagged(rows, resultsDict);
      if Mismatched(x, resultsDict) {
        assert f[..|f| - 1] == Flagged(p, resultsDict);
      } else {
        assert f == Flagged(p, resultsDict);
      }
    }
  }
}
