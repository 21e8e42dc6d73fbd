/** The output analysis of lettuce/FedLettuce/debug_lettuce_output.py
    (`capture_raw_lettuce_output`): a character scanner that splits the stripped CLI output
    into top-level `{...}` chunks by counting braces outside string literals, and the slice
    of the output after the end marker. The CLI's standard output is a parameter; printing
    and the later parsing attempts are not part of this model. */
module DebugOutput {
  import opened Wrappers
  import opened Seqs
  import opened Text
  import GroundTruth

  /** The scanner's variables. `chunks` holds the raw, unstripped text of every emitted
      object; the program only keeps their stripped forms in `jsonObjects`. */
  datatype ScanState = ScanState(
    jsonObjects: seq<string>,
    chunks: seq<string>,
    braceCount: int,
    currentObj: string,
    inString: bool,
    escapeNext: bool)

  const Init := ScanState([], [], 0, "", false, false)

  /** `s.strip().startswith('{')`. */
  predicate OpensObject(s: string) {
    Strip(s) != [] && Strip(s)[0] == '{'
  }

  /** One iteration of the character loop. An escaped character and a backslash are only
      appended; a quote toggles `inString`; outside strings `{` and `}` move the count, and a
      `}` that brings it to zero while the text so far opens with `{` emits that text. */
  function Step(st: ScanState, ch: char): ScanState {
    if st.escapeNext then
      st.(escapeNext := false, currentObj := st.currentObj + [ch])
    else if ch == '\\' then
      st.(escapeNext := true, currentObj := st.currentObj + [ch])
    else
      var inString := if ch == '"' then !st.inString else st.inString;
      var current := st.currentObj + [ch];
      if inString then
        st.(inString := inString, currentObj := current)
      else if ch == '{' then
        st.(inString := inString, currentObj := current, braceCount := st.braceCount + 1)
      else if ch == '}' then
        var braceCount := st.braceCount - 1;
        if braceCount == 0 && OpensObject(current) then
          st.(jsonObjects := st.jsonObjects + [Strip(current)], chunks := st.chunks + [current],
              inString := inString, currentObj := "", braceCount := braceCount)
        else
          st.(inString := inString, currentObj := current, braceCount := braceCount)
      else
        st.(inString := inString, currentObj := current)
  }

  /** The state after scanning `s` from the initial state. */
  function Scan(s: string): ScanState {
    if s == [] then Init else Step(Scan(s[..|s| - 1]), s[|s| - 1])
  }

  /** The scanning loop of `capture_raw_lettuce_output`. */
  method FindObjects(output: string) returns (jsonObjects: seq<string>)
    ensures jsonObjects == Scan(output).jsonObjects
  {
    jsonObjects := [];
    var braceCount := 0;
    var currentObj := "";
    var inString := false;
    var escapeNext := false;
    ghost var chunks: seq<string> := [];
    for i := 0 to |output|
      invariant Scan(output[..i]) == ScanState(jsonObjects, chunks, braceCount, currentObj, inString, escapeNext)
    {
      var ch := output[i];
      assert output[..i + 1][..i] == output[..i];
      if escapeNext {
        escapeNext := false;
        currentObj := currentObj + [ch];
        continue;
      }
      if ch == '\\' {
        escapeNext := true;
        currentObj := currentObj + [ch];
        continue;
      }
      if ch == '"' {
        inString := !inString;
      }
      currentObj := currentObj + [ch];
      if !inString {
        if ch == '{' {
          braceCount := braceCount + 1;
        } else if ch == '}' {
          braceCount := braceCount - 1;
          if braceCount == 0 && OpensObject(currentObj) {
            jsonObjects := jsonObjects + [Strip(currentObj)];
            chunks := chunks + [currentObj];
            currentObj := "";
          }
        }
      }
    }
    assert output[..|output|] == output;
  }

  /** The analysis `capture_raw_lettuce_output` performs on a successful run: the objects the
      scanner finds in the stripped output, and the stripped text after the first end marker
      when the output holds one. */
  method CaptureAnalysis(stdout: string) returns (jsonObjects: seq<string>, afterEnd: Option<string>)
    ensures jsonObjects == Scan(Strip(stdout)).jsonObjects
    ensures afterEnd == AfterEnd(Strip(stdout), GroundTruth.EndMarker)
  {
    var output := Strip(stdout);
    jsonObjects := FindObjects(output);
    afterEnd := AfterEnd(output, GroundTruth.EndMarker);
  }

  /** The end-marker search of `capture_raw_lettuce_output`:
      `output[end_pos + len(end_marker):].strip()`, computed only when the marker is found. */
  function AfterEnd(output: string, endMarker: string): Option<string> {
    var endPos := Find(output, endMarker);
    if endPos == -1 then None else Some(Strip(Drop(output, endPos + |endMarker|)))
  }

  /** The text after the marker is present exactly when the marker occurs, and then it is the
      stripped text following the marker's first occurrence. */
  lemma AfterEndSpec(output: string, endMarker: string)
    ensures AfterEnd(output, endMarker).Some? <==> exists k :: OccursAt(output, endMarker, k)
    ensures AfterEnd(output, endMarker).Some? ==>
      var k := Find(output, endMarker);
      && 0 <= k && k + |endMarker| <= |output|
      && output[k..k + |endMarker|] == endMarker
      && AfterEnd(output, endMarker).value == Strip(output[k + |endMarker|..])
      && forall j :: 0 <= j < k ==> !OccursAt(output, endMarker, j)
  {
  }

  // ---------------------------------------------------------------------------------------
  // One step
  // ---------------------------------------------------------------------------------------

  /** A character that follows a backslash is appended and does nothing else: it neither
      toggles `inString` nor moves the count, and it ends the escape. */
  lemma EscapedCharInert(st: ScanState, ch: char)
    requires st.escapeNext
    ensures Step(st, ch) == st.(escapeNext := false, currentObj := st.currentObj + [ch])
    ensures Step(st, ch).inString == st.inString && Step(st, ch).braceCount == st.braceCount
  {
  }

  /** Only an unescaped backslash starts an escape; only an unescaped quote toggles
      `inString`. */
  lemma EscapeAndQuote(st: ScanState, ch: char)
    ensures Step(st, ch).escapeNext <==> !st.escapeNext && ch == '\\'
    ensures Step(st, ch).inString != st.inString <==> !st.escapeNext && ch == '"'
  {
  }

  /** The count moves only on an unescaped brace outside a string: up by one on `{`, down by
      one on `}`. */
  lemma BracesOutsideStrings(st: ScanState, ch: char)
    ensures Step(st, ch).braceCount != st.braceCount ==>
      !st.escapeNext && !st.inString && (ch == '{' || ch == '}')
    ensures !st.escapeNext && !st.inString && ch == '{' ==> Step(st, ch).braceCount == st.braceCount + 1
    ensures !st.escapeNext && !st.inString && ch == '}' ==> Step(st, ch).braceCount == st.braceCount - 1
  {
  }

  /** An object is emitted only by an unescaped `}` outside a string that closes the
      outermost brace of a text opening with `{`; the emitted object is the stripped text so
      far, and the text so far starts over empty. Otherwise nothing is emitted and the
      character is appended. */
  lemma EmitResets(st: ScanState, ch: char)
    ensures var current := st.currentObj + [ch];
      if !st.escapeNext && !st.inString && ch == '}' && st.braceCount == 1 && OpensObject(current) then
        && Step(st, ch).jsonObjects == st.jsonObjects + [Strip(current)]
        && Step(st, ch).chunks == st.chunks + [current]
        && Step(st, ch).currentObj == ""
      else
        && Step(st, ch).jsonObjects == st.jsonObjects
        && Step(st, ch).chunks == st.chunks
        && Step(st, ch).currentObj == current
  {
  }

  /** A `}` at depth zero or below, outside a string, drives the count below zero without any
      guard and emits nothing. */
  lemma UnmatchedClose(st: ScanState)
    requires !st.escapeNext && !st.inString && st.braceCount <= 0
    ensures Step(st, '}').braceCount == st.braceCount - 1 < 0
    ensures Step(st, '}').jsonObjects == st.jsonObjects
  {
  }

  /** A stray `}` at the start puts the count off by one for the rest of the text, so the
      object that follows it is never emitted. */
  lemma StrayCloseHidesObject()
    ensures Scan("}{}").jsonObjects == []
    ensures Scan("}{}").braceCount == -1
  {
    assert "}{}"[..2] == "}{";
    assert "}{"[..1] == "}";
    assert "}"[..0] == [];
  }

  // ---------------------------------------------------------------------------------------
  // The whole scan
  // ---------------------------------------------------------------------------------------

  /** Every input character is appended to the text so far exactly once: the emitted raw
      chunks followed by the pending text are the input itself. */
  lemma {:induction false} ScanCovers(s: string)
    ensures Flatten(Scan(s).chunks) + Scan(s).currentObj == s
  {
    if s != [] {
      var p, ch := s[..|s| - 1], s[|s| - 1];
      ScanCovers(p);
      StepCovers(Scan(p), ch);
      assert s == p + [ch];
    }
  }

  /** One step appends its character to the raw chunks followed by the pending text. */
  lemma StepCovers(st: ScanState, ch: char)
    ensures Flatten(Step(st, ch).chunks) + Step(st, ch).currentObj == (Flatten(st.chunks) + st.currentObj) + [ch]
  {
    var current := st.currentObj + [ch];
    EmitResets(st, ch);
    if |Step(st, ch).chunks| != |st.chunks| {
      FlattenSnoc(st.chunks, current);
    }
  }

  /** Text that starts with `{` and ends with `}`. */
  predicate IsBraced(o: string) {
    |o| >= 2 && o[0] == '{' && o[|o| - 1] == '}'
  }

  /** The objects are the stripped raw chunks. */
  predicate ObjectsOfChunks(st: ScanState) {
    |st.jsonObjects| == |st.chunks| &&
    forall i :: 0 <= i < |st.chunks| ==> st.jsonObjects[i] == Strip(st.chunks[i]) && IsBraced(st.jsonObjects[i])
  }

  lemma StepObjects(st: ScanState, ch: char)
    requires ObjectsOfChunks(st)
    ensures ObjectsOfChunks(Step(st, ch))
  {
    var current := st.currentObj + [ch];
    EmitResets(st, ch);
    if !st.escapeNext && !st.inString && ch == '}' && st.braceCount == 1 && OpensObject(current) {
      StripKeepsEnds(current);
      assert IsBraced(Strip(current));
    }
  }

  /** Every emitted object is its raw chunk stripped, and starts with `{` and ends with `}`. */
  lemma {:induction false} ScanObjects(s: string)
    ensures ObjectsOfChunks(Scan(s))
  {
    if s != [] {
      ScanObjects(s[..|s| - 1]);
      StepObjects(Scan(s[..|s| - 1]), s[|s| - 1]);
    }
  }

  /** What `FindObjects` returns: objects that start with `{` and end with `}`, each the
      stripped form of a piece of the input, the pieces and the pending text making up the
      input in order. */
  lemma FoundObjects(output: string)
    ensures forall i :: 0 <= i < |Scan(output).jsonObjects| ==> IsBraced(Scan(output).jsonObjects[i])
    ensures |Scan(output).jsonObjects| == |Scan(output).chunks|
    ensures forall i :: 0 <= i < |Scan(output).chunks| ==>
      Scan(output).jsonObjects[i] == Strip(Scan(output).chunks[i])
    ensures Flatten(Scan(output).chunks) + Scan(output).currentObj == output
  {
    ScanObjects(output);
    ScanCovers(output);
  }
}
