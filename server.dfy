/** The plain-text aggregation strategy (lettuce/FedLettuce/server.py): count the failed
    terms that the clients of one round report, and send the distinct terms back. */
module Server {
  import opened Wrappers
  import opened Text
  import opened Wire
  import opened Tally

  /** `aggregate_failed_terms`: for every result that has arrays, split the first array on
      "\n" and count each non-empty segment. Returns the dict as its keys in insertion order
      and its counts. */
  method AggregateFailedTerms(results: seq<FitRes>) returns (keys: seq<string>, termCounter: map<string, nat>)
    ensures keys == DistinctTerms(Received(results))
    ensures termCounter == TallyOf(Received(results))
  {
    keys, termCounter := [], map[];
    ghost var read := [];
    for i := 0 to |results|
      invariant read == Received(results[..i])
      invariant keys == DistinctTerms(read)
      invariant termCounter == TallyOf(read)
    {
      keys, termCounter := ReadResult(keys, termCounter, results[i], read);
      read := read + Segments(results[i]);
      assert results[..i + 1] == results[..i] + [results[i]];
      ReceivedSnoc(results[..i], results[i]);
    }
    assert results[..|results|] == results;
  }

  /** One result: when it has arrays, the segments of its first array are counted; otherwise
      it is skipped. */
  method ReadResult(keys0: seq<string>, counter0: map<string, nat>, r: FitRes, ghost read: seq<string>)
    returns (keys: seq<string>, termCounter: map<string, nat>)
    requires keys0 == DistinctTerms(read) && counter0 == TallyOf(read)
    ensures keys == DistinctTerms(read + Segments(r))
    ensures termCounter == TallyOf(read + Segments(r))
  {
    var arrays := r.arrays;
    if arrays != [] {
      keys, termCounter := CountTerms(keys0, counter0, Split(arrays[0], '\n'), read);
    } else {
      keys, termCounter := keys0, counter0;
      assert read + [] == read;
    }
  }

  /** The inner loop of `aggregate_failed_terms`: count the segments of one result into the
      dict built from the segments `seen` read so far. */
  method CountTerms(keys0: seq<string>, counter0: map<string, nat>, terms: seq<string>, ghost seen: seq<string>)
    returns (keys: seq<string>, termCounter: map<string, nat>)
    requires keys0 == DistinctTerms(seen) && counter0 == TallyOf(seen)
    ensures keys == DistinctTerms(seen + terms)
    ensures termCounter == TallyOf(seen + terms)
  {
    keys, termCounter := keys0, counter0;
    ghost var read := seen;
    for j := 0 to |terms|
      invariant read == seen + terms[..j]
      invariant keys == DistinctTerms(read)
      invariant termCounter == TallyOf(read)
    {
      var term := terms[j];
      keys, termCounter := CountTerm(keys, termCounter, term, read);
      read := read + [term];
      assert terms[..j + 1] == terms[..j] + [term];
    }
    assert terms[..|terms|] == terms;
  }

  /** One segment: a non-empty term is counted, and becomes a new key if it was not one. */
  method CountTerm(keys0: seq<string>, counter0: map<string, nat>, term: string, ghost read: seq<string>)
    returns (keys: seq<string>, termCounter: map<string, nat>)
    requires keys0 == DistinctTerms(read) && counter0 == TallyOf(read)
    ensures keys == DistinctTerms(read + [term])
    ensures termCounter == TallyOf(read + [term])
  {
    keys, termCounter := keys0, counter0;
    CountOne(read, term);
    if term != "" {
      if term !in termCounter {
        keys := keys + [term];
      }
      termCounter := termCounter[term := Get(termCounter, term) + 1];
    }
  }

  /** `FedAnalytics.aggregate_fit`. No results: `(None, {})`. Otherwise the parameters hold one
      array, the distinct failed terms joined by "\n" in first-seen order, and the metrics
      report how many distinct terms there are. */
  method AggregateFit(results: seq<FitRes>) returns (parameters: Option<seq<string>>, metrics: map<string, nat>)
    ensures results == [] ==> parameters == None && metrics == map[]
    ensures results != [] ==>
      && parameters == Some([Join(DistinctTerms(Received(results)), '\n')])
      && metrics == map["num_failed_terms" := |TallyOf(Received(results))|]
    ensures results != [] && TallyOf(Received(results)) != map[] ==>
      Split(parameters.value[0], '\n') == DistinctTerms(Received(results))
  {
    if |results| == 0 {
      return None, map[];
    }
    var keys, failedTerms := AggregateFailedTerms(results);
    var failedTermsStr := Join(keys, '\n');
    parameters := Some([failedTermsStr]);
    metrics := map["num_failed_terms" := |keys|];
    RoundPayload(results);
  }

  /** What `aggregate_fit` sends back for a round: as many distinct terms as the counter has
      keys, joined into a payload that splits back into exactly those terms. */
  lemma RoundPayload(results: seq<FitRes>)
    ensures |DistinctTerms(Received(results))| == |TallyOf(Received(results))|
    ensures TallyOf(Received(results)) != map[] ==>
      Split(Join(DistinctTerms(Received(results)), '\n'), '\n') == DistinctTerms(Received(results))
  {
    var segs := Received(results);
    DistinctTermsCount(segs);
    if TallyOf(segs) != map[] {
      ReceivedNewlineFree(results);
      AggregatePayloadRoundTrip(segs);
    }
  }

  /** The payload `aggregate_fit` sends back splits into exactly the distinct terms: segments
      of a split never contain "\n". */
  lemma AggregatePayloadRoundTrip(segs: seq<string>)
    requires forall i :: 0 <= i < |segs| ==> '\n' !in segs[i]
    requires DistinctTerms(segs) != []
    ensures Split(Join(DistinctTerms(segs), '\n'), '\n') == DistinctTerms(segs)
  {
    var d := DistinctTerms(segs);
    DistinctTermsSpec(segs);
    assert forall i :: 0 <= i < |d| ==> '\n' !in d[i] by {
      forall i | 0 <= i < |d| ensures '\n' !in d[i] {
        assert d[i] in segs;
        var j :| 0 <= j < |segs| && segs[j] == d[i];
      }
    }
    SplitJoin(d, '\n');
  }

  /** Every segment that reaches the server is newline-free. */
  lemma {:induction false} ReceivedNewlineFree(results: seq<FitRes>)
    ensures forall i :: 0 <= i < |Received(results)| ==> '\n' !in Received(results)[i]
  {
    if results != [] {
      var p, r := results[..|results| - 1], results[|results| - 1];
      ReceivedNewlineFree(p);
      if r.arrays != [] {
        SplitSeparatorFree(r.arrays[0], '\n');
      }
      var x, y := Received(p), Segments(r);
      assert Received(results) == x + y;
      forall i | 0 <= i < |x + y| ensures '\n' !in (x + y)[i] {
        if i < |x| { assert (x + y)[i] == x[i]; } else { assert (x + y)[i] == y[i - |x|]; }
      }
    }
  }


  /** A result without arrays, or whose first array is empty, adds nothing to the tally. */
  lemma SkippedResults(results: seq<FitRes>, r: FitRes)
    requires r.arrays == [] || r.arrays[0] == ""
    ensures TallyOf(Received(results + [r])) == TallyOf(Received(results))
  {
    ReceivedSnoc(results, r);
    if r.arrays == [] {
      assert Received(results + [r]) == Received(results);
    } else {
      assert Segments(r) == [""];
      CountOne(Received(results), "");
    }
  }

  /** Only the first array of a result is read. */
  lemma OnlyFirstArrayRead(results: seq<FitRes>, r: FitRes, r': FitRes)
    requires r.arrays != [] && r'.arrays != [] && r.arrays[0] == r'.arrays[0]
    ensures TallyOf(Received(results + [r])) == TallyOf(Received(results + [r']))
  {
    ReceivedSnoc(results, r);
    ReceivedSnoc(results, r');
  }

  /** The tally does not depend on the order in which results arrive. */
  lemma OrderIndependent(a: seq<FitRes>, b: seq<FitRes>)
    requires multiset(a) == multiset(b)
    ensures TallyOf(Received(a)) == TallyOf(Received(b))
    ensures |DistinctTerms(Received(a))| == |DistinctTerms(Received(b))|
  {
    ReceivedPermutation(a, b);
    TallySameCounts(Received(a), Received(b));
    DistinctTermsCount(Received(a));
    DistinctTermsCount(Received(b));
  }
}
