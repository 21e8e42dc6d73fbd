/** The sequential client (lettuce/FedLettuce/sequential_client.py): one client processes every
    partition in turn, collects all wrong terms and sends them in plain text. `partitions[id]`
    stands for the wrong terms the ground-truth checker finds in partition `id`; the number
    of partitions is the configured number of clients. */
module SequentialClient {
  import opened Seqs
  import opened Text
  import opened Wire

  /** The number of wrong terms over all partitions. */
  function TotalLength(partitions: seq<seq<string>>): nat {
    if partitions == [] then 0
    else TotalLength(partitions[..|partitions| - 1]) + |partitions[|partitions| - 1]|
  }

  /** Collecting the partitions one after another keeps every term: the collected list is as
      long as all partitions together. */
  lemma {:induction false} FlattenLength(partitions: seq<seq<string>>)
    ensures |Flatten(partitions)| == TotalLength(partitions)
  {
    if partitions != [] {
      FlattenLength(partitions[..|partitions| - 1]);
    }
  }

  /** `FlowerClient.fit`: extend the collected list with each partition's wrong terms, in
      partition order, then pack the whole list without encryption. */
  method Fit(partitions: seq<seq<string>>) returns (reply: FitRes)
    ensures reply.arrays == [Pack(Flatten(partitions))]
    ensures reply.numExamples == TotalLength(partitions)
  {
    var allWrongTerms: seq<string> := [];
    for clientId := 0 to |partitions|
      invariant allWrongTerms == Flatten(partitions[..clientId])
    {
      var wrongTerms := partitions[clientId];
      allWrongTerms := allWrongTerms + wrongTerms;
      assert partitions[..clientId + 1] == partitions[..clientId] + [wrongTerms];
      FlattenSnoc(partitions[..clientId], wrongTerms);
    }
    assert partitions[..|partitions|] == partitions;
    var byteData: string;
    if |allWrongTerms| == 0 {
      byteData := "";
    } else {
      byteData := Join(allWrongTerms, '\n');
    }
    FlattenLength(partitions);
    reply := FitRes([byteData], |allWrongTerms|);
  }

  /** What the server reads from the sequential client: nothing when no partition has a wrong
      term, otherwise every collected term, partition after partition. */
  lemma FitSegments(partitions: seq<seq<string>>, reply: FitRes)
    requires reply.arrays == [Pack(Flatten(partitions))]
    requires forall id :: 0 <= id < |partitions| ==> NewlineFree(partitions[id])
    ensures Flatten(partitions) == [] ==> Segments(reply) == [""]
    ensures Flatten(partitions) != [] ==> Segments(reply) == Flatten(partitions)
  {
    FlattenNewlineFree(partitions);
  }

  lemma {:induction false} FlattenNewlineFree(partitions: seq<seq<string>>)
    requires forall id :: 0 <= id < |partitions| ==> NewlineFree(partitions[id])
    ensures NewlineFree(Flatten(partitions))
  {
    if partitions != [] {
      var p, last := partitions[..|partitions| - 1], partitions[|partitions| - 1];
      FlattenNewlineFree(p);
      var x := Flatten(p);
      forall i | 0 <= i < |x + last| ensures '\n' !in (x + last)[i] {
        if i < |x| { assert (x + last)[i] == x[i]; } else { assert (x + last)[i] == last[i - |x|]; }
      }
    }
  }
}
