/** The substitution cipher that clients apply to terms before sending them
    (lettuce/FedLettuce/cipher.py). */
module Cipher {
  import opened Seqs

  /** The `n` consecutive ASCII characters starting at `first`. */
  function CharRange(first: char, n: nat): (r: string)
    requires first as int + n <= 128
    ensures |r| == n && forall i :: 0 <= i < n ==> r[i] as int == first as int + i
  {
    seq(n, i requires 0 <= i < n => (first as int + i) as char)
  }

  /** Python's `string.ascii_letters + string.digits + ' .,()-'`: 68 characters. */
  const Alphabet: string := CharRange('a', 26) + CharRange('A', 26) + CharRange('0', 10) + " .,()-"

  /** Membership in the alphabet by character class. */
  predicate InAlphabet(c: char) {
    ('a' <= c <= 'z') || ('A' <= c <= 'Z') || ('0' <= c <= '9')
    || c == ' ' || c == '.' || c == ',' || c == '(' || c == ')' || c == '-'
  }

  lemma AlphabetMembership(c: char)
    ensures |Alphabet| == 68
    ensures c in Alphabet <==> InAlphabet(c)
  {
    var lower, upper, digits, punct := CharRange('a', 26), CharRange('A', 26), CharRange('0', 10), " .,()-";
    assert Alphabet == lower + upper + digits + punct;
    if InAlphabet(c) {
      if 'a' <= c <= 'z' {
        assert lower[c as int - 'a' as int] == c;
      } else if 'A' <= c <= 'Z' {
        assert upper[c as int - 'A' as int] == c;
      } else if '0' <= c <= '9' {
        assert digits[c as int - '0' as int] == c;
      } else {
        assert c in punct;
      }
    }
    if c in Alphabet {
      var i :| 0 <= i < |Alphabet| && Alphabet[i] == c;
      if i < 26 {
        assert c == lower[i];
      } else if i < 52 {
        assert c == upper[i - 26];
      } else if i < 62 {
        assert c == digits[i - 52];
      } else {
        assert c == punct[i - 62];
      }
    }
  }

  /** What the shuffle of `list(chars)` yields: a permutation of the alphabet, i.e. the same
      length, the same characters and no character twice. The seeded PRNG that picks which
      permutation is not modelled. */
  ghost predicate IsKey(key: seq<char>) {
    && |key| == |Alphabet|
    && (forall c :: c in key <==> c in Alphabet)
    && Distinct(key)
  }

  /** `list.index` / `str.index`: the first position of `c`. */
  function IndexOf(s: seq<char>, c: char): (i: nat)
    requires c in s
    ensures i < |s| && s[i] == c
    ensures forall j :: 0 <= j < i ==> s[j] != c
  {
    if s[0] == c then 0 else 1 + IndexOf(s[1..], c)
  }

  /** One step of `encrypt`: an alphabet character is replaced by the key character at its
      index; any other character is kept. */
  function EncryptChar(key: seq<char>, c: char): char
    requires |key| == |Alphabet|
  {
    if c in Alphabet then key[IndexOf(Alphabet, c)] else c
  }

  /** One step of `decrypt`: a key character is replaced by the alphabet character at its
      index in the key; any other character is kept. */
  function DecryptChar(key: seq<char>, c: char): char
    requires |key| == |Alphabet|
  {
    if c in key then Alphabet[IndexOf(key, c)] else c
  }

  /** What `encrypt` returns: each character substituted on its own. */
  function EncryptText(key: seq<char>, s: string): string
    requires |key| == |Alphabet|
  {
    seq(|s|, i requires 0 <= i < |s| => EncryptChar(key, s[i]))
  }

  /** What `decrypt` returns. */
  function DecryptText(key: seq<char>, s: string): string
    requires |key| == |Alphabet|
  {
    seq(|s|, i requires 0 <= i < |s| => DecryptChar(key, s[i]))
  }

  /** The alphabet has no repeated character, so an index into it names one character and a
      character has one index. */
  lemma AlphabetDistinct()
    ensures Distinct(Alphabet)
  {
  }

  /** decrypt undoes encrypt on every character. */
  lemma DecryptEncryptChar(key: seq<char>, c: char)
    requires IsKey(key)
    ensures DecryptChar(key, EncryptChar(key, c)) == c
  {
    if c in Alphabet {
      var i := IndexOf(Alphabet, c);
      var e := key[i];
      assert e in key;
      var j := IndexOf(key, e);
      assert j == i;
    }
  }

  /** encrypt undoes decrypt on every character. */
  lemma EncryptDecryptChar(key: seq<char>, c: char)
    requires IsKey(key)
    ensures EncryptChar(key, DecryptChar(key, c)) == c
  {
    if c in key {
      AlphabetDistinct();
      var j := IndexOf(key, c);
      var a := Alphabet[j];
      var i := IndexOf(Alphabet, a);
      assert i == j;
    }
  }

  /** Characters outside the alphabet pass through both directions unchanged; alphabet
      characters stay in the alphabet. */
  lemma CharClosure(key: seq<char>, c: char)
    requires IsKey(key)
    ensures c !in Alphabet ==> EncryptChar(key, c) == c && DecryptChar(key, c) == c
    ensures c in Alphabet ==> EncryptChar(key, c) in Alphabet && DecryptChar(key, c) in Alphabet
  {
    if c in Alphabet {
      assert key[IndexOf(Alphabet, c)] in key;
    }
  }

  /** `decrypt(encrypt(s)) == s` for every string, including characters outside the alphabet. */
  lemma DecryptEncrypt(key: seq<char>, s: string)
    requires IsKey(key)
    ensures DecryptText(key, EncryptText(key, s)) == s
  {
    forall i | 0 <= i < |s| ensures DecryptText(key, EncryptText(key, s))[i] == s[i] {
      DecryptEncryptChar(key, s[i]);
    }
  }

  /** `encrypt(decrypt(s)) == s` for every string: the key is a bijection on the alphabet. */
  lemma EncryptDecrypt(key: seq<char>, s: string)
    requires IsKey(key)
    ensures EncryptText(key, DecryptText(key, s)) == s
  {
    forall i | 0 <= i < |s| ensures EncryptText(key, DecryptText(key, s))[i] == s[i] {
      EncryptDecryptChar(key, s[i]);
    }
  }

  /** Encryption works character by character: it preserves length, and the encryption of a
      concatenation is the concatenation of the encryptions. */
  lemma EncryptPointwise(key: seq<char>, a: string, b: string)
    requires |key| == |Alphabet|
    ensures |EncryptText(key, a)| == |a|
    ensures EncryptText(key, a + b) == EncryptText(key, a) + EncryptText(key, b)
  {
  }

  /** Non-alphabet characters (such as '!' in "Hello, World! 123") keep their position in
      both directions. */
  lemma NonAlphabetKept(key: seq<char>, s: string, i: nat)
    requires IsKey(key)
    requires i < |s| && s[i] !in Alphabet
    ensures EncryptText(key, s)[i] == s[i] && DecryptText(key, s)[i] == s[i]
  {
    CharClosure(key, s[i]);
  }

  /** '\n' is not in the alphabet, so a text contains a newline exactly when its encryption
      (or its decryption) does. */
  lemma NewlineIffEncrypted(key: seq<char>, s: string)
    requires IsKey(key)
    ensures '\n' in EncryptText(key, s) <==> '\n' in s
    ensures '\n' in DecryptText(key, s) <==> '\n' in s
  {
    AlphabetMembership('\n');
    forall i | 0 <= i < |s|
      ensures EncryptChar(key, s[i]) == '\n' <==> s[i] == '\n'
      ensures DecryptChar(key, s[i]) == '\n' <==> s[i] == '\n'
    {
      CharClosure(key, s[i]);
    }
    if '\n' in s {
      var i :| 0 <= i < |s| && s[i] == '\n';
      assert EncryptText(key, s)[i] == '\n' && DecryptText(key, s)[i] == '\n';
    }
  }

  /** `SimpleCipher`. Its two fields are set once, in `__init__`, and never reassigned. */
  class SimpleCipher {
    const chars: string
    const key: seq<char>

    ghost predicate Valid() {
      chars == Alphabet && IsKey(key)
    }

    /** `__init__`: `chars` is the alphabet and `key` its shuffle, given here as `shuffled`. */
    constructor (shuffled: seq<char>)
      requires IsKey(shuffled)
      ensures Valid() && key == shuffled
    {
      chars := Alphabet;
      key := shuffled;
    }

    /** `encrypt`: grows the cipher text one character at a time. */
    method Encrypt(plainText: string) returns (cipherText: string)
      requires Valid()
      ensures cipherText == EncryptText(key, plainText)
      ensures DecryptText(key, cipherText) == plainText
    {
      cipherText := "";
      for i := 0 to |plainText|
        invariant cipherText == EncryptText(key, plainText[..i])
      {
        var letter := plainText[i];
        assert EncryptText(key, plainText[..i + 1]) == EncryptText(key, plainText[..i]) + [EncryptChar(key, letter)];
        if letter in chars {
          var index := IndexOf(chars, letter);
          cipherText := cipherText + [key[index]];
        } else {
          cipherText := cipherText + [letter];
        }
      }
      assert plainText[..|plainText|] == plainText;
      DecryptEncrypt(key, plainText);
    }

    /** `decrypt`: looks each character up in the key. */
    method Decrypt(cipherText: string) returns (decryptText: string)
      requires Valid()
      ensures decryptText == DecryptText(key, cipherText)
      ensures EncryptText(key, decryptText) == cipherText
    {
      decryptText := "";
      for i := 0 to |cipherText|
        invariant decryptText == DecryptText(key, cipherText[..i])
      {
        var letter := cipherText[i];
        assert DecryptText(key, cipherText[..i + 1]) == DecryptText(key, cipherText[..i]) + [DecryptChar(key, letter)];
        if letter in key {
          var index := IndexOf(key, letter);
          decryptText := decryptText + [chars[index]];
        } else {
          decryptText := decryptText + [letter];
        }
      }
      assert cipherText[..|cipherText|] == cipherText;
      EncryptDecrypt(key, cipherText);
    }

    /** `encrypt_term_list`: a comprehension over the terms. */
    function EncryptTermList(terms: seq<string>): seq<string>
      requires Valid()
    {
      seq(|terms|, i requires 0 <= i < |terms| => EncryptText(key, terms[i]))
    }

    /** `decrypt_term_list`. */
    function DecryptTermList(encryptedTerms: seq<string>): seq<string>
      requires Valid()
    {
      seq(|encryptedTerms|, i requires 0 <= i < |encryptedTerms| => DecryptText(key, encryptedTerms[i]))
    }
  }

  /** The term-list operations are pointwise and length-preserving, and decrypting an encrypted
      list returns the original list. */
  lemma TermListRoundTrip(c: SimpleCipher, terms: seq<string>)
    requires c.Valid()
    ensures |c.EncryptTermList(terms)| == |terms|
    ensures forall i :: 0 <= i < |terms| ==> |c.EncryptTermList(terms)[i]| == |terms[i]|
    ensures c.DecryptTermList(c.EncryptTermList(terms)) == terms
  {
    forall i | 0 <= i < |terms| ensures c.DecryptTermList(c.EncryptTermList(terms))[i] == terms[i] {
      DecryptEncrypt(c.key, terms[i]);
    }
  }

  /** Both term-list operations distribute over list concatenation. */
  lemma TermListAppend(c: SimpleCipher, a: seq<string>, b: seq<string>)
    requires c.Valid()
    ensures c.EncryptTermList(a + b) == c.EncryptTermList(a) + c.EncryptTermList(b)
    ensures c.DecryptTermList(a + b) == c.DecryptTermList(a) + c.DecryptTermList(b)
  {
  }

  /** The encrypted list holds, position by position, the encryption of each term, so a term
      is newline-free exactly when its encryption is. */
  lemma EncryptTermListShape(c: SimpleCipher, terms: seq<string>)
    requires c.Valid()
    ensures |c.EncryptTermList(terms)| == |terms|
    ensures forall i :: 0 <= i < |terms| ==> c.EncryptTermList(terms)[i] == EncryptText(c.key, terms[i])
    ensures forall i :: 0 <= i < |terms| ==>
      ('\n' in c.EncryptTermList(terms)[i] <==> '\n' in terms[i])
  {
    forall i | 0 <= i < |terms| ensures '\n' in c.EncryptTermList(terms)[i] <==> '\n' in terms[i] {
      NewlineIffEncrypted(c.key, terms[i]);
    }
  }

  /** The demo string of cipher.py round-trips, and its '!' is left in place. */
  lemma DemoRoundTrip(c: SimpleCipher)
    requires c.Valid()
    ensures EncryptText(c.key, "Hello, World! 123")[12] == '!'
    ensures DecryptText(c.key, EncryptText(c.key, "Hello, World! 123")) == "Hello, World! 123"
  {
    AlphabetMembership('!');
    NonAlphabetKept(c.key, "Hello, World! 123", 12);
    DecryptEncrypt(c.key, "Hello, World! 123");
  }
}
