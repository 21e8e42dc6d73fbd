/** The encrypted aggregation strategy (lettuce/FedLettuce/server_decrypt.py): the server
    holds the same cipher as the clients, decrypts every segment it receives and counts the
    decrypted failed terms. */
module ServerDecrypt {
  import opened Wrappers
  import opened Text
  import opened Wire
  import opened Tally
  import opened Cipher
  import Server

  /** The decrypted segments of a round, in result order. */
  function DecryptedReceived(cipher: SimpleCipher, results: seq<FitRes>): seq<string>
    requires cipher.Valid()
  {
    cipher.DecryptTermList(Received(results))
  }

  /** `aggregate_failed_terms`: for every result that has arrays, split the first array on
      "\n", decrypt every segment and count each non-empty decrypted term. */
  method AggregateFailedTerms(cipher: SimpleCipher, results: seq<FitRes>) returns (termCounter: map<string, nat>)
    requires cipher.Valid()
    ensures termCounter == TallyOf(DecryptedReceived(cipher, results))
  {
    var keys: seq<string> := [];
    termCounter := map[];
    ghost var read: seq<string> := [];
    for i := 0 to |results|
      invariant read == DecryptedReceived(cipher, results[..i])
      invariant keys == DistinctTerms(read) && termCounter == TallyOf(read)
    {
      keys, termCounter := ReadResult(cipher, keys, termCounter, results[i], read);
      read := read + cipher.DecryptTermList(Segments(results[i]));
      assert results[..i + 1] == results[..i] + [results[i]];
      ReceivedSnoc(results[..i], results[i]);
      TermListAppend(cipher, Received(results[..i]), Segments(results[i]));
    }
    assert results[..|results|] == results;
  }

  /** One result: when it has arrays, the segments of its first array are decrypted and
      counted; otherwise it is skipped. */
  method ReadResult(cipher: SimpleCipher, keys0: seq<string>, counter0: map<string, nat>, r: FitRes,
                    ghost read: seq<string>)
    returns (keys: seq<string>, termCounter: map<string, nat>)
    requires cipher.Valid()
    requires keys0 == DistinctTerms(read) && counter0 == TallyOf(read)
    ensures keys == DistinctTerms(read + cipher.DecryptTermList(Segments(r)))
    ensures termCounter == TallyOf(read + cipher.DecryptTermList(Segments(r)))
  {
    var arrays := r.arrays;
    if arrays != [] {
      var terms := Split(arrays[0], '\n');
      var decryptedTerms := cipher.DecryptTermList(terms);
      keys, termCounter := Server.CountTerms(keys0, counter0, decryptedTerms, read);
    } else {
      keys, termCounter := keys0, counter0;
      assert read + cipher.DecryptTermList([]) == read;
    }
  }

  /** `FedAnalytics.aggregate_fit`: no results give `(None, {})`; otherwise the parameters are
      `None` and the metrics are the counter of decrypted terms itself. */
  method AggregateFit(cipher: SimpleCipher, results: seq<FitRes>) returns (parameters: Option<seq<string>>, metrics: map<string, nat>)
    requires cipher.Valid()
    ensures parameters == None
    ensures results == [] ==> metrics == map[]
    ensures results != [] ==> metrics == TallyOf(DecryptedReceived(cipher, results))
  {
    if |results| == 0 {
      return None, map[];
    }
    parameters := None;
    metrics := AggregateFailedTerms(cipher, results);
  }

  /** Occurrences of `u` among decrypted segments are occurrences of its encryption among the
      segments: decryption is injective, so it renames terms without merging any two. */
  lemma {:induction false} DecryptedOccurrences(cipher: SimpleCipher, segs: seq<string>, u: string)
    requires cipher.Valid()
    ensures multiset(cipher.DecryptTermList(segs))[u] == multiset(segs)[EncryptText(cipher.key, u)]
  {
    if segs != [] {
      var p, s := segs[..|segs| - 1], segs[|segs| - 1];
      DecryptedOccurrences(cipher, p, u);
      assert segs == p + [s];
      TermListAppend(cipher, p, [s]);
      assert cipher.DecryptTermList([s]) == [DecryptText(cipher.key, s)];
      EncryptDecrypt(cipher.key, s);
      DecryptEncrypt(cipher.key, u);
      assert DecryptText(cipher.key, s) == u <==> s == EncryptText(cipher.key, u);
    }
  }

  /** The server's counter is the count of cipher-text segments, renamed by decryption: the
      count of a decrypted term is the number of segments that encrypt it, and the keys are
      exactly the decryptions of the non-empty segments. */
  lemma DecryptedTally(cipher: SimpleCipher, segs: seq<string>, u: string)
    requires cipher.Valid()
    ensures u != "" ==> Get(TallyOf(cipher.DecryptTermList(segs)), u) == Get(TallyOf(segs), EncryptText(cipher.key, u))
    ensures u in TallyOf(cipher.DecryptTermList(segs)) <==> EncryptText(cipher.key, u) in TallyOf(segs)
  {
    var e := EncryptText(cipher.key, u);
    EncryptPointwise(cipher.key, u, "");
    DecryptedOccurrences(cipher, segs, u);
    TallyCounts(cipher.DecryptTermList(segs), u);
    TallyCounts(segs, e);
    assert e in segs <==> multiset(segs)[e] > 0;
    assert u in cipher.DecryptTermList(segs) <==> multiset(cipher.DecryptTermList(segs))[u] > 0;
  }
}
