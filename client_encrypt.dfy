/** The encrypting client (lettuce/FedLettuce/client_encrypt.py): a client's `fit` encrypts its
    wrong terms with the shared cipher and sends them as one newline-joined array. The wrong
    terms (computed by the ground-truth checker from the client's partition) are an input. */
module ClientEncrypt {
  import opened Text
  import opened Wire
  import opened Cipher

  /** `FlowerClient.fit`: the reply holds one array, the packed encrypted terms, and reports
      as many examples as there are wrong terms. `cipher` is the cipher rebuilt from seed 42
      on every call; being a parameter, equal term lists give equal replies. */
  function Fit(cipher: SimpleCipher, wrongterms: seq<string>): (reply: FitRes)
    requires cipher.Valid()
    ensures reply.numExamples == |wrongterms|
    ensures |reply.arrays| == 1
    ensures wrongterms == [] ==> reply.arrays[0] == ""
    ensures wrongterms != [] && NewlineFree(wrongterms) ==>
      && Split(reply.arrays[0], '\n') == cipher.EncryptTermList(wrongterms)
      && cipher.DecryptTermList(Split(reply.arrays[0], '\n')) == wrongterms
  {
    var encryptedWrongterms := cipher.EncryptTermList(wrongterms);
    var byteData := Pack(encryptedWrongterms);
    assert wrongterms != [] && NewlineFree(wrongterms) ==>
      && Split(byteData, '\n') == encryptedWrongterms
      && cipher.DecryptTermList(Split(byteData, '\n')) == wrongterms by {
      if wrongterms != [] && NewlineFree(wrongterms) {
        EncryptedPayload(cipher, wrongterms);
      }
    }
    FitRes([byteData], |encryptedWrongterms|)
  }

  /** For non-empty, newline-free terms the encrypted payload splits back into the encrypted
      terms, which decrypt to the terms themselves. */
  lemma EncryptedPayload(cipher: SimpleCipher, terms: seq<string>)
    requires cipher.Valid()
    requires terms != [] && NewlineFree(terms)
    ensures Split(Pack(cipher.EncryptTermList(terms)), '\n') == cipher.EncryptTermList(terms)
    ensures cipher.DecryptTermList(cipher.EncryptTermList(terms)) == terms
  {
    TermListRoundTrip(cipher, terms);
    EncryptTermListShape(cipher, terms);
    assert NewlineFree(cipher.EncryptTermList(terms));
  }

  /** What the server reads from such a reply: nothing when there are no terms (the lone
      empty segment), otherwise exactly the encrypted terms in order. */
  lemma FitSegments(cipher: SimpleCipher, wrongterms: seq<string>)
    requires cipher.Valid()
    requires NewlineFree(wrongterms)
    ensures wrongterms == [] ==> Segments(Fit(cipher, wrongterms)) == [""]
    ensures wrongterms != [] ==> Segments(Fit(cipher, wrongterms)) == cipher.EncryptTermList(wrongterms)
  {
  }
}
