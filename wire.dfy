/** The payload that travels from a client to the server in one round: a newline-joined list of
    terms, carried as the first parameter array of a fit result. The numpy `frombuffer` /
    `tobytes` and UTF-8 `encode` / `decode` steps are the identity on text here. */
module Wire {
  import opened Text
  import opened Seqs

  /** What a client's `fit` returns and what the server reads: the parameter arrays (each a
      byte buffer, kept as its text) and the number of examples. */
  datatype FitRes = FitRes(arrays: seq<string>, numExamples: nat)

  /** Every term is free of the separator. */
  predicate NewlineFree(terms: seq<string>) {
    forall i :: 0 <= i < |terms| ==> '\n' !in terms[i]
  }

  /** The client-side packing: no terms give the empty buffer `b""`, otherwise the terms are
      joined with "\n" in their order. */
  function Pack(terms: seq<string>): (payload: string)
    ensures terms == [] ==> payload == ""
    ensures terms != [] && NewlineFree(terms) ==> Split(payload, '\n') == terms
  {
    if |terms| == 0 then ""
    else
      var payload := Join(terms, '\n');
      assert NewlineFree(terms) ==> Split(payload, '\n') == terms by {
        if NewlineFree(terms) { SplitJoin(terms, '\n'); }
      }
      payload
  }

  /** The segments the server reads from one result: none when it has no arrays, otherwise
      only the first array, split on "\n". */
  function Segments(r: FitRes): seq<string> {
    if r.arrays == [] then [] else Split(r.arrays[0], '\n')
  }

  /** All segments read from a round's results, in result order. */
  function Received(results: seq<FitRes>): seq<string> {
    if results == [] then [] else Received(results[..|results| - 1]) + Segments(results[|results| - 1])
  }

  /** `Received` concatenates the segments of every result. */
  lemma {:induction false} ReceivedConcat(results: seq<FitRes>)
    ensures Received(results) == ConcatMap(Segments, results)
  {
    if results != [] {
      ReceivedConcat(results[..|results| - 1]);
    }
  }

  lemma ReceivedSnoc(rs: seq<FitRes>, r: FitRes)
    ensures Received(rs + [r]) == Received(rs) + Segments(r)
  {
    assert (rs + [r])[..|rs|] == rs;
  }

  /** Which segments arrive does not depend on the order of the results. */
  lemma ReceivedPermutation(a: seq<FitRes>, b: seq<FitRes>)
    requires multiset(a) == multiset(b)
    ensures multiset(Received(a)) == multiset(Received(b))
  {
    ReceivedConcat(a);
    ReceivedConcat(b);
    ConcatMapPermutation(Segments, a, b);
  }
}
