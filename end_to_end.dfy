/** One round from the clients' wrong terms to the server's counter, for both deployments:
    encrypting clients with the decrypting server, and the sequential plain-text client with
    the plain server. */
module EndToEnd {
  import opened Seqs
  import opened Cipher
  import opened Wire
  import opened Tally
  import ClientEncrypt
  import SequentialClient
  import ServerDecrypt

  /** The replies of the encrypting clients, one per client, in client order. */
  function Replies(cipher: SimpleCipher, clients: seq<seq<string>>): (rs: seq<FitRes>)
    requires cipher.Valid()
    ensures |rs| == |clients|
  {
    seq(|clients|, i requires 0 <= i < |clients| => ClientEncrypt.Fit(cipher, clients[i]))
  }

  /** Every client's terms are newline-free. */
  predicate AllNewlineFree(clients: seq<seq<string>>) {
    forall id :: 0 <= id < |clients| ==> NewlineFree(clients[id])
  }

  /** What one client contributes: its reply's segments decrypt to its own terms, or to the
      lone empty segment when it has none. */
  lemma ClientDelivers(cipher: SimpleCipher, w: seq<string>, t: string)
    requires cipher.Valid()
    requires NewlineFree(w)
    requires t != ""
    ensures multiset(cipher.DecryptTermList(Segments(ClientEncrypt.Fit(cipher, w))))[t] == multiset(w)[t]
  {
    ClientEncrypt.FitSegments(cipher, w);
    if w == [] {
      assert DecryptText(cipher.key, "") == "";
      assert cipher.DecryptTermList([""]) == [""];
    } else {
      TermListRoundTrip(cipher, w);
    }
  }

  /** The decrypted segments of one more client's reply come after those of the others. */
  lemma RepliesSnoc(cipher: SimpleCipher, clients: seq<seq<string>>)
    requires cipher.Valid()
    requires clients != []
    ensures ServerDecrypt.DecryptedReceived(cipher, Replies(cipher, clients)) ==
      ServerDecrypt.DecryptedReceived(cipher, Replies(cipher, clients[..|clients| - 1]))
      + cipher.DecryptTermList(Segments(ClientEncrypt.Fit(cipher, clients[|clients| - 1])))
  {
    var p, w := clients[..|clients| - 1], clients[|clients| - 1];
    var rp, r := Replies(cipher, p), ClientEncrypt.Fit(cipher, w);
    assert Replies(cipher, clients) == rp + [r];
    ReceivedSnoc(rp, r);
    TermListAppend(cipher, Received(rp), Segments(r));
  }

  /** Each non-empty term occurs among the decrypted segments as often as among all clients'
      plain-text wrong terms. */
  lemma {:induction false} DeliveredCounts(cipher: SimpleCipher, clients: seq<seq<string>>, t: string)
    requires cipher.Valid()
    requires AllNewlineFree(clients)
    requires t != ""
    ensures multiset(ServerDecrypt.DecryptedReceived(cipher, Replies(cipher, clients)))[t]
      == multiset(Flatten(clients))[t]
  {
    if clients != [] {
      var p, w := clients[..|clients| - 1], clients[|clients| - 1];
      var c := cipher.DecryptTermList(Segments(ClientEncrypt.Fit(cipher, w)));
      calc {
        multiset(ServerDecrypt.DecryptedReceived(cipher, Replies(cipher, clients)))[t];
        { RepliesSnoc(cipher, clients); }
        multiset(ServerDecrypt.DecryptedReceived(cipher, Replies(cipher, p)) + c)[t];
        multiset(ServerDecrypt.DecryptedReceived(cipher, Replies(cipher, p)))[t] + multiset(c)[t];
        { DeliveredCounts(cipher, p, t); ClientDelivers(cipher, w, t); }
        multiset(Flatten(p))[t] + multiset(w)[t];
        multiset(Flatten(p) + w)[t];
        { assert clients == p + [w]; FlattenSnoc(p, w); }
        multiset(Flatten(clients))[t];
      }
    }
  }

  /** Encrypt, join, split, decrypt and count: the server's counter is the counter of the
      clients' plain-text terms, so each term's count is its total multiplicity across
      clients. */
  lemma EncryptedRound(cipher: SimpleCipher, clients: seq<seq<string>>)
    requires cipher.Valid()
    requires AllNewlineFree(clients)
    ensures TallyOf(ServerDecrypt.DecryptedReceived(cipher, Replies(cipher, clients))) == TallyOf(Flatten(clients))
    ensures forall t :: t != "" ==>
      Get(TallyOf(ServerDecrypt.DecryptedReceived(cipher, Replies(cipher, clients))), t) == multiset(Flatten(clients))[t]
  {
    var segs := ServerDecrypt.DecryptedReceived(cipher, Replies(cipher, clients));
    forall t | t != "" ensures multiset(segs)[t] == multiset(Flatten(clients))[t] {
      DeliveredCounts(cipher, clients, t);
    }
    TallySameCounts(segs, Flatten(clients));
    TallyAllCounts(Flatten(clients));
  }

  /** The plain-text deployment: the server's counter over the sequential client's single reply
      is the counter of all partitions' wrong terms. */
  lemma SequentialRound(partitions: seq<seq<string>>, reply: FitRes)
    requires reply.arrays == [Pack(Flatten(partitions))]
    requires AllNewlineFree(partitions)
    ensures TallyOf(Received([reply])) == TallyOf(Flatten(partitions))
  {
    ReceivedSnoc([], reply);
    assert [] + [reply] == [reply];
    assert Received([reply]) == Segments(reply);
    SequentialClient.FitSegments(partitions, reply);
    if Flatten(partitions) == [] {
      assert Segments(reply) == [] + [""];
      CountOne([], "");
    }
  }
}
