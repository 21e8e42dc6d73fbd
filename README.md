# FedLettuce core: substitution cipher, failed-term tally and ground-truth checkers

FedLettuce runs the LETTUCE concept-matching CLI at several federated clients. Each client
checks its partition of informal medication names against the expected OMOP concepts. The
terms LETTUCE got wrong ("wrong terms" or "failed terms") go to a Flower server, which counts
them across clients. This project models the parts of that pipeline that have their own logic:

- **Cipher** (`cipher.dfy`): `SimpleCipher`. A substitution cipher over the 68-character
  alphabet `ascii_letters + digits + " .,()-"`. The key is any permutation of the alphabet.
  `Encrypt` and `Decrypt` are loops over the characters, proved against the functions
  `EncryptText` and `DecryptText`. Those two are shown to be mutual inverses on every string.
- **Wire** (`wire.dfy`): the payload a client sends, which is its terms joined by `"\n"`, or
  `""` when it has none. Also the segments the server reads back: only the first array of each
  result, split on `"\n"`; a result with no arrays is skipped.
- **Tally** (`tally.dfy`): the specification of the server's counter. `TallyOf` maps every
  non-empty segment to its number of occurrences. `DistinctTerms` lists the counter's keys in
  first-seen (dict insertion) order.
- **Server** (`server.dfy`, `server_decrypt.dfy`): `aggregate_failed_terms` and
  `aggregate_fit`, for the plain server and for the decrypting server. Each is an imperative
  loop proved equal to the tally of the received segments, or of their decryptions.
- **Clients** (`client_encrypt.dfy`, `sequential_client.dfy`): the encrypting client's
  payload construction, and the sequential client's accumulation loop over all partitions.
- **End to end** (`end_to_end.dfy`): encrypt, join, split, decrypt and count. The server's
  counter equals the counter of all clients' plain-text terms.
- **Ground truth** (`groundtruth.dfy`, `llm_groundtruth.dfy`): `standardise_text`; the pure
  parts of `call_lettuce_simple`; and the two checkers. One flags a term when its expected
  output is not among the standardised top-k vector-search results. The other flags it when
  the expected output differs from the standardised LLM answer.
- **Debug scanner** (`debug_output.dfy`): the brace/string/escape scanner of
  `capture_raw_lettuce_output`, which splits the CLI output into top-level `{...}` chunks,
  and the slice of the output after the end marker.

Python string operations are modelled in `text.dfy`: `strip`, `lower`, `split`, `join`,
`find`, slicing and `replace('\n', '')`, ASCII only. Generic sequence facts are in `seqs.dfy`:
flattening, permutations, and a dict built by successive assignments (the last one wins).

Running the CLI (`subprocess.run`) and parsing its output (`ast.literal_eval`) are function
parameters, `seq<string> -> Option<string>` and `string -> Option<seq<Record>>`. In both,
`None` stands for an exception that the enclosing `try` catches. The per-partition wrong terms
that the clients feed into their payloads are inputs.

## Model

| member | source | states |
|---|---|---|
| Cipher.AlphabetMembership | lettuce/FedLettuce/cipher.py:10 | the alphabet has 68 characters, and a character is in it exactly when it is an ASCII letter, a digit or one of ` .,()-` |
| Cipher.AlphabetDistinct | lettuce/FedLettuce/cipher.py:10 | the alphabet has no repeated character, so an alphabet index determines its character and vice versa |
| Cipher.IndexOf | lettuce/FedLettuce/cipher.py:25 | `list.index`: the position of the first occurrence of the character |
| Cipher.SimpleCipher.constructor | lettuce/FedLettuce/cipher.py:8-15 | the key is a permutation of the alphabet (same length, same characters, no duplicates) and the object is valid |
| Cipher.SimpleCipher.Encrypt | lettuce/FedLettuce/cipher.py:20-30 | the loop's result is the character-wise substitution of the text, and decrypting it gives the plain text back |
| Cipher.SimpleCipher.Decrypt | lettuce/FedLettuce/cipher.py:32-42 | the loop's result is the character-wise inverse substitution, and encrypting it gives the cipher text back |
| Cipher.DecryptEncryptChar | lettuce/FedLettuce/cipher.py:24-26 | decrypting an encrypted character returns the character |
| Cipher.EncryptDecryptChar | lettuce/FedLettuce/cipher.py:36-38 | encrypting a decrypted character returns the character, since the key is a bijection on the alphabet |
| Cipher.CharClosure | lettuce/FedLettuce/cipher.py:24-29 | characters outside the alphabet pass through both directions unchanged; alphabet characters map to alphabet characters |
| Cipher.DecryptEncrypt | lettuce/FedLettuce/cipher.py:20-42 | `decrypt(encrypt(s)) == s` for every string, with or without characters outside the alphabet |
| Cipher.EncryptDecrypt | lettuce/FedLettuce/cipher.py:20-42 | `encrypt(decrypt(s)) == s` for every string |
| Cipher.EncryptPointwise | lettuce/FedLettuce/cipher.py:20-30 | encryption preserves length (so `""` encrypts to `""`) and distributes over concatenation, so each character is mapped independently of its neighbours |
| Cipher.NonAlphabetKept | lettuce/FedLettuce/cipher.py:27-29 | a character outside the alphabet stays at its position after encryption and after decryption |
| Cipher.NewlineIffEncrypted | lettuce/FedLettuce/cipher.py:24-29 | an encrypted or decrypted text contains a newline exactly when the original does |
| Cipher.TermListRoundTrip | lettuce/FedLettuce/cipher.py:44-50 | encrypting a term list keeps the list's length and each term's length, and decrypting it returns the original list |
| Cipher.TermListAppend | lettuce/FedLettuce/cipher.py:44-50 | both list functions are pointwise: they distribute over concatenation of lists |
| Cipher.SimpleCipher.EncryptTermList | lettuce/FedLettuce/cipher.py:44-46 | `encrypt_term_list`: the comprehension encrypting each term; its properties are stated by the lemmas TermListRoundTrip, TermListAppend and EncryptTermListShape |
| Cipher.SimpleCipher.DecryptTermList | lettuce/FedLettuce/cipher.py:48-50 | `decrypt_term_list`: the comprehension decrypting each term; TermListRoundTrip and TermListAppend state its properties |
| Cipher.EncryptTermListShape | lettuce/FedLettuce/cipher.py:44-46 | the encrypted list is as long as the term list, its i-th entry is the encryption of the i-th term, and that entry holds a newline exactly when the term does |
| Cipher.DemoRoundTrip | lettuce/FedLettuce/cipher.py:54-58 | for every key, the demo text "Hello, World! 123" keeps its `!` and decrypts back to itself |
| Wire.Segments | lettuce/FedLettuce/server.py:27-31 | what the server reads from one result: nothing when it has no arrays, otherwise the first array split on "\n"; Wire.ReceivedSnoc, Server.SkippedResults and Server.OnlyFirstArrayRead state its effect |
| Wire.Pack | lettuce/FedLettuce/client_encrypt.py:57-61 | no terms give the empty payload; otherwise, for newline-free terms, splitting the payload on "\n" returns the terms in order |
| Wire.ReceivedConcat | lettuce/FedLettuce/server.py:24-31 | the segments read from a round are the segments of each result, concatenated in result order |
| Wire.ReceivedSnoc | lettuce/FedLettuce/server.py:24-31 | one more result adds its segments after those already read |
| Wire.ReceivedPermutation | lettuce/FedLettuce/server.py:24-31 | reordering the results only permutes the segments read (same multiset) |
| Tally.DistinctTermsSpec | lettuce/FedLettuce/server.py:33-35 | the counter's keys are exactly the non-empty segments seen, each listed once |
| Tally.TallyCounts | lettuce/FedLettuce/server.py:33-35 | each non-empty term's count is its number of occurrences, duplicates within one payload included; a key has count at least 1; the empty segment is never a key |
| Tally.TallyAllCounts | lettuce/FedLettuce/server.py:33-35 | the counts of all terms at once, and the key set equals the distinct terms |
| Tally.CountOne | lettuce/FedLettuce/server.py:34-35 | counting one segment: an empty one changes nothing; a new term is added with count 1; a known term's count goes up by 1 |
| Tally.TallySameCounts | lettuce/FedLettuce/server.py:33-35 | segment lists that agree on the multiplicity of every non-empty term give the same counter |
| Tally.DistinctTermsCount | lettuce/FedLettuce/server.py:77-88 | the number of keys joined into the payload equals the size of the counter |
| Server.AggregateFailedTerms | lettuce/FedLettuce/server.py:21-37 | the loop returns the counter of all segments read, and its keys in insertion order |
| Server.ReadResult | lettuce/FedLettuce/server.py:26-35 | reading one result extends the counter by that result's segments, and by nothing for a result with no arrays |
| Server.CountTerms | lettuce/FedLettuce/server.py:33-35 | the inner loop extends the counter by the given segments |
| Server.CountTerm | lettuce/FedLettuce/server.py:34-35 | one step of the inner loop extends the counter by one segment |
| Server.AggregateFit | lettuce/FedLettuce/server.py:67-88 | no results give `(None, {})`; otherwise the payload is the distinct terms joined by "\n" and splits back into them, and `num_failed_terms` is the number of distinct terms |
| Server.RoundPayload | lettuce/FedLettuce/server.py:73-88 | for any round, `num_failed_terms` equals the number of keys joined into the payload, and a non-empty payload splits back into exactly the distinct terms |
| Server.AggregatePayloadRoundTrip | lettuce/FedLettuce/server.py:77 | the joined keys split back into exactly the keys |
| Server.ReceivedNewlineFree | lettuce/FedLettuce/server.py:31 | no segment read by the server contains "\n" |
| Server.SkippedResults | lettuce/FedLettuce/server.py:27-31 | a result with no arrays, or with an empty first array, leaves the counter unchanged |
| Server.OnlyFirstArrayRead | lettuce/FedLettuce/server.py:30-31 | results with the same first array give the same counter, whatever their other arrays |
| Server.OrderIndependent | lettuce/FedLettuce/server.py:24-35 | the counter and the number of distinct terms do not depend on the order of the results |
| ServerDecrypt.AggregateFailedTerms | lettuce/FedLettuce/server_decrypt.py:25-46 | the loop returns the counter of the decrypted segments of every result with arrays |
| ServerDecrypt.ReadResult | lettuce/FedLettuce/server_decrypt.py:30-44 | one result extends the counter by its decrypted segments |
| ServerDecrypt.AggregateFit | lettuce/FedLettuce/server_decrypt.py:76-84 | the parameters are always `None`; the metrics are `{}` without results and the counter of decrypted segments otherwise |
| ServerDecrypt.DecryptedOccurrences | lettuce/FedLettuce/server_decrypt.py:39-44 | a plain term occurs among the decrypted segments as often as its encryption occurs among the received ones |
| ServerDecrypt.DecryptedTally | lettuce/FedLettuce/server_decrypt.py:39-44 | counting is on decrypted text: a term's count is its cipher text's count before decryption; the empty segment stays empty and is not counted |
| ClientEncrypt.Fit | lettuce/FedLettuce/client_encrypt.py:46-69 | one array; the example count is the number of wrong terms; no terms give `b""`; otherwise, for newline-free terms, the payload splits into the encrypted terms in input order; equal term lists give equal replies |
| ClientEncrypt.EncryptedPayload | lettuce/FedLettuce/client_encrypt.py:55-61 | the packed encrypted terms split back into the encrypted list, which decrypts to the wrong terms |
| ClientEncrypt.FitSegments | lettuce/FedLettuce/client_encrypt.py:57-61 | what the server reads from this client: the lone empty segment when it has no terms, otherwise its encrypted terms |
| SequentialClient.Fit | lettuce/FedLettuce/sequential_client.py:45-74 | the loop visits every partition once, in order, and collects the concatenation of their wrong terms; the payload is that list joined, unencrypted (or `b""`), and the count is the sum of the partition sizes |
| SequentialClient.FlattenLength | lettuce/FedLettuce/sequential_client.py:60 | the collected list is as long as all partitions together |
| SequentialClient.FitSegments | lettuce/FedLettuce/sequential_client.py:66-74 | what the server reads: the lone empty segment when no partition has a wrong term, otherwise every collected term |
| SequentialClient.FlattenNewlineFree | lettuce/FedLettuce/sequential_client.py:60 | collecting newline-free partitions gives a newline-free list |
| EndToEnd.Replies | lettuce/FedLettuce/client_encrypt.py:46-69 | one reply per client |
| EndToEnd.ClientDelivers | lettuce/FedLettuce/client_encrypt.py:54-61 | one client's reply, decrypted at the server, holds each non-empty term as often as the client's wrong terms do |
| EndToEnd.RepliesSnoc | lettuce/FedLettuce/server_decrypt.py:28-39 | one more client appends its decrypted segments after the others' |
| EndToEnd.DeliveredCounts | lettuce/FedLettuce/server_decrypt.py:28-44 | each non-empty term occurs among all decrypted segments as often as among all clients' plain-text terms |
| EndToEnd.EncryptedRound | lettuce/FedLettuce/server_decrypt.py:25-46 | encrypt, join, split, decrypt, count: the server's counter is the counter of the clients' plain terms, so each term's count is its total multiplicity |
| EndToEnd.SequentialRound | lettuce/FedLettuce/server.py:21-37 | the plain server's counter over the sequential client's reply is the counter of all partitions' wrong terms |
| Text.StripLeftSpec | lettuce/FedLettuce/groundtruth_checking.py:68 | `lstrip` removes a prefix of whitespace and leaves no leading whitespace |
| Text.StripRightSpec | lettuce/FedLettuce/groundtruth_checking.py:68 | `rstrip` removes a suffix of whitespace and leaves no trailing whitespace |
| Text.StripKeepsEnds | lettuce/FedLettuce/debug_lettuce_output.py:68-69 | stripping keeps a last character that is not whitespace, and leaves a text without whitespace as it is, so an object ending in `}` still ends in `}` |
| Text.StripChars | lettuce/FedLettuce/groundtruth_checking.py:68 | every character of a stripped text is one of the text's |
| Text.Lower | lettuce/FedLettuce/groundtruth_checking.py:68 | `lower` keeps the length, turns each capital `A`–`Z` into its own lower-case letter and keeps every other character, so no upper-case letter is left |
| Text.Split | lettuce/FedLettuce/server.py:31 | `split` always returns at least one piece |
| Text.SplitSeparatorFree | lettuce/FedLettuce/server.py:31 | no piece of a split contains the separator |
| Text.SplitJoin | lettuce/FedLettuce/client_encrypt.py:60 | joining at least one separator-free piece and splitting again returns the pieces (`"\n".join([])` is `""`, which splits to `[""]`) |
| Text.JoinSplit | lettuce/FedLettuce/server.py:31 | splitting and joining again returns the text |
| Text.FindFrom | lettuce/FedLettuce/debug_lettuce_output.py:76 | searching from position i gives the first occurrence at or after i, or -1 when there is none from i on |
| Text.Find | lettuce/FedLettuce/groundtruth_checking.py:35 | `str.find`: -1 exactly when the marker occurs nowhere; otherwise a position where it occurs, with no occurrence before it |
| Text.RemoveAll | lettuce/FedLettuce/groundtruth_checking.py:32 | `replace('\n', '')`: the result holds no newline and every other character as often as the input |
| Text.RemoveAllAppend | lettuce/FedLettuce/groundtruth_checking.py:32 | removal keeps order: it distributes over concatenation, drops a lone removed character and keeps any other one, so the result is the input with exactly those characters taken out |
| GroundTruth.Standardise | lettuce/FedLettuce/groundtruth_checking.py:65-69 | `standardise_text` returns only word characters (letters, digits, `_`) and no upper-case letter |
| GroundTruth.DeleteNonWord | lettuce/FedLettuce/groundtruth_checking.py:69 | deleting the non-word runs never lengthens the text |
| GroundTruth.LowerNoUpper | lettuce/FedLettuce/groundtruth_checking.py:68 | a lower-cased text holds no upper-case letter |
| GroundTruth.DeleteNonWordKeeps | lettuce/FedLettuce/groundtruth_checking.py:69 | the result holds only word characters of the argument |
| GroundTruth.DeleteNonWordFixed | lettuce/FedLettuce/groundtruth_checking.py:69 | a text of word characters is left as it is |
| GroundTruth.DeleteNonWordAppend | lettuce/FedLettuce/groundtruth_checking.py:69 | deleting distributes over concatenation |
| GroundTruth.DeleteNonWordStripLeft | lettuce/FedLettuce/groundtruth_checking.py:68-69 | the leading whitespace `strip` removes would be deleted anyway |
| GroundTruth.DeleteNonWordStripRight | lettuce/FedLettuce/groundtruth_checking.py:68-69 | the trailing whitespace `strip` removes would be deleted anyway |
| GroundTruth.DeleteNonWordStrip | lettuce/FedLettuce/groundtruth_checking.py:68-69 | stripping before deleting makes no difference |
| GroundTruth.StripRedundant | lettuce/FedLettuce/groundtruth_checking.py:65-69 | `standardise_text` equals lower-casing and then deleting the non-word characters: the `strip` is redundant |
| GroundTruth.StandardiseIdempotent | lettuce/FedLettuce/groundtruth_checking.py:65-69 | standardising twice is standardising once |
| GroundTruth.StandardiseCaseInsensitive | lettuce/FedLettuce/groundtruth_checking.py:65-69 | texts that differ only in letter case standardise alike |
| GroundTruth.DemoLower | lettuce/FedLettuce/groundtruth_checking.py:96-97 | both spellings of the demo's acetaminophen row lower-case to "acetaminophen" |
| GroundTruth.DemoWord | lettuce/FedLettuce/groundtruth_checking.py:96-97 | "acetaminophen" has no non-word character to delete |
| GroundTruth.AcetaminophenMatches | lettuce/FedLettuce/groundtruth_checking.py:96-97 | the demo pair 'aceTaminophen' / 'AcetamInophen' standardises to the same "acetaminophen", so the row is a match |
| GroundTruth.Terms | lettuce/FedLettuce/groundtruth_checking.py:14-17 | a single string is wrapped into a one-element list; a list is used as it is |
| GroundTruth.Command | lettuce/FedLettuce/groundtruth_checking.py:20 | the command line is the fixed `uv run ... --informal_names` prefix, then the terms in order, then the LLM switch |
| GroundTruth.ResultsText | lettuce/FedLettuce/groundtruth_checking.py:31-37 | the text handed to `ast.literal_eval`: newlines removed, then the slice from `find(marker) + len(marker)`; ResultsTextCases and ResultsTextNewlineFree state what it is |
| GroundTruth.ResultsTextNewlineFree | lettuce/FedLettuce/groundtruth_checking.py:31-37 | the text after the marker holds no newline |
| GroundTruth.ResultsTextCases | lettuce/FedLettuce/groundtruth_checking.py:34-37 | the marker is 34 characters long; when it occurs, the results text follows its first occurrence; when it does not, `find` gives -1 and the slice starts at offset 33 |
| GroundTruth.TopKEntry | lettuce/FedLettuce/groundtruth_checking.py:44 | `d.get('concept') or d.get('content')`: the concept when it is present and non-empty (truthy), otherwise the content, which may be missing |
| GroundTruth.ResultsLastWins | lettuce/FedLettuce/groundtruth_checking.py:40-48 | the dict's keys are the records' queries, and each query maps to the `concept`-or-`content` list of its last record |
| GroundTruth.ResultsDict | lettuce/FedLettuce/groundtruth_checking.py:40-48 | the records-to-dict loop builds that dict, or gives `None` when a record lacks a key |
| GroundTruth.CallLettuceSimple | lettuce/FedLettuce/groundtruth_checking.py:12-63 | `call_lettuce_simple` with `--no-use_llm`: `None` when the run or the parse fails, otherwise the dict of the parsed records; the return code does not affect the result |
| GroundTruth.Inputs | lettuce/FedLettuce/groundtruth_checking.py:73 | `df['input_data'].tolist()`: the rows' terms in row order |
| GroundTruth.StandardiseAll | lettuce/FedLettuce/groundtruth_checking.py:84 | the comprehension standardises each top-k entry, keeping the list's length |
| GroundTruth.StandardisedIn | lettuce/FedLettuce/groundtruth_checking.py:84 | the standardised ground truth is in the standardised top-k list exactly when some entry matches it |
| GroundTruth.CheckRow | lettuce/FedLettuce/groundtruth_checking.py:78-85 | one row succeeds exactly when its term has no results or a complete top-k list, and then reports whether the row is mismatched; otherwise it fails on that term |
| GroundTruth.CheckableSnoc | lettuce/FedLettuce/groundtruth_checking.py:77-85 | the rows can be checked up to one more row exactly when the earlier rows can and that row can |
| GroundTruth.FlaggedSnoc | lettuce/FedLettuce/groundtruth_checking.py:77-85 | one more row appends its term exactly when it is mismatched |
| GroundTruth.CheckRows | lettuce/FedLettuce/groundtruth_checking.py:76-88 | the row loop succeeds exactly when no consulted top-k entry is missing, and then returns the mismatched rows' terms in row order |
| GroundTruth.GroundTruthChecker | lettuce/FedLettuce/groundtruth_checking.py:71-88 | a failed CLI call raises on the first row (an empty frame returns `[]`); otherwise the result is the row loop's |
| GroundTruth.FlaggedFrom | lettuce/FedLettuce/groundtruth_checking.py:81-85 | every flagged term comes from a row whose term has results, none of which matches |
| GroundTruth.MismatchedFlagged | lettuce/FedLettuce/groundtruth_checking.py:81-85 | every such row's term is flagged |
| GroundTruth.FlaggedIff | lettuce/FedLettuce/groundtruth_checking.py:81-85 | a term is flagged exactly when it is a key of the results and its standardised ground truth is among none of the standardised top-k entries; a term absent from the results is never flagged |
| GroundTruth.FlaggedSubsequence | lettuce/FedLettuce/groundtruth_checking.py:76-85 | the flagged list is a subsequence of the input terms, in row order |
| GroundTruth.FlaggedAppend | lettuce/FedLettuce/groundtruth_checking.py:76-85 | the flags of two frames are the flags of each, concatenated, so a duplicated mismatched row is flagged twice |
| LlmGroundTruth.ResultsLastWins | lettuce/FedLettuce/llm_groundtruth_checking.py:40-45 | the dict's keys are the records' queries, and each query maps to the `llm_answer` of its last record |
| LlmGroundTruth.ResultsDict | lettuce/FedLettuce/llm_groundtruth_checking.py:40-45 | the records-to-dict loop builds that dict, or gives `None` when a record lacks a key |
| LlmGroundTruth.CallLettuceSimple | lettuce/FedLettuce/llm_groundtruth_checking.py:12-60 | `call_lettuce_simple` with `--use_llm`: `None` when the run or the parse fails, otherwise the dict of the parsed records |
| LlmGroundTruth.FlaggedSnoc | lettuce/FedLettuce/llm_groundtruth_checking.py:77-85 | one more row appends its term exactly when it is mismatched |
| LlmGroundTruth.CheckRows | lettuce/FedLettuce/llm_groundtruth_checking.py:77-89 | the row loop returns the mismatched rows' terms in row order |
| LlmGroundTruth.LlmGroundTruthChecker | lettuce/FedLettuce/llm_groundtruth_checking.py:68-89 | a failed CLI call returns every input term in order; otherwise the mismatched rows' terms |
| LlmGroundTruth.FlaggedFrom | lettuce/FedLettuce/llm_groundtruth_checking.py:82-85 | every flagged term comes from a row whose answer does not standardise to its expected output |
| LlmGroundTruth.MismatchedFlagged | lettuce/FedLettuce/llm_groundtruth_checking.py:82-85 | every such row's term is flagged |
| LlmGroundTruth.FlaggedIff | lettuce/FedLettuce/llm_groundtruth_checking.py:82-85 | a term is flagged exactly when it is a key of the results and the standardised expected output differs from the standardised answer; a term absent from the results is never flagged |
| LlmGroundTruth.CaseOnlyDifferenceAccepted | lettuce/FedLettuce/llm_groundtruth_checking.py:62-66 | an answer that differs from the expected output only in letter case is not flagged |
| LlmGroundTruth.FlaggedSubsequence | lettuce/FedLettuce/llm_groundtruth_checking.py:77-85 | the flagged list is a subsequence of the input terms, in row order |
| DebugOutput.Step | lettuce/FedLettuce/debug_lettuce_output.py:47-70 | one iteration of the character loop, branch for branch; EscapedCharInert, EscapeAndQuote, BracesOutsideStrings, EmitResets and UnmatchedClose state what it does |
| DebugOutput.FindObjects | lettuce/FedLettuce/debug_lettuce_output.py:41-70 | the scanning loop returns the objects of the left fold of `Step` over the output |
| DebugOutput.CaptureAnalysis | lettuce/FedLettuce/debug_lettuce_output.py:36-79 | the objects found in the stripped output, and the text after its end marker |
| DebugOutput.AfterEnd | lettuce/FedLettuce/debug_lettuce_output.py:75-79 | the end-marker search: the stripped text after the marker, or nothing; AfterEndSpec states what it is |
| DebugOutput.AfterEndSpec | lettuce/FedLettuce/debug_lettuce_output.py:75-79 | the text after the marker exists exactly when the marker occurs, and is then the stripped text right after its first occurrence |
| DebugOutput.EscapedCharInert | lettuce/FedLettuce/debug_lettuce_output.py:48-51 | the character after a backslash is appended without toggling `in_string` or moving `brace_count`, and ends the escape |
| DebugOutput.EscapeAndQuote | lettuce/FedLettuce/debug_lettuce_output.py:48-59 | only an unescaped backslash starts an escape; only an unescaped `"` toggles `in_string` |
| DebugOutput.BracesOutsideStrings | lettuce/FedLettuce/debug_lettuce_output.py:63-67 | `brace_count` moves only on an unescaped brace outside a string: +1 on `{`, -1 on `}` |
| DebugOutput.EmitResets | lettuce/FedLettuce/debug_lettuce_output.py:61-70 | an object is emitted only by a `}` closing the outermost brace of a text opening with `{`, and `current_obj` is then reset to empty; otherwise the character is appended |
| DebugOutput.UnmatchedClose | lettuce/FedLettuce/debug_lettuce_output.py:66-68 | an unmatched `}` drives `brace_count` below zero and emits nothing |
| DebugOutput.StrayCloseHidesObject | lettuce/FedLettuce/debug_lettuce_output.py:63-70 | on `}{}` the count ends at -1 and the object after the stray brace is never emitted |
| DebugOutput.StepCovers | lettuce/FedLettuce/debug_lettuce_output.py:47-70 | one step appends its character to the emitted chunks followed by the pending text |
| DebugOutput.ScanCovers | lettuce/FedLettuce/debug_lettuce_output.py:47-70 | every input character is appended exactly once: the raw emitted chunks followed by the final `current_obj` are the input |
| DebugOutput.StepObjects | lettuce/FedLettuce/debug_lettuce_output.py:61-69 | each step keeps every object equal to its raw chunk stripped, starting with `{` and ending with `}` |
| DebugOutput.ScanObjects | lettuce/FedLettuce/debug_lettuce_output.py:47-70 | after any input, every object is its raw chunk stripped, braced at both ends |
| DebugOutput.FoundObjects | lettuce/FedLettuce/debug_lettuce_output.py:41-70 | every emitted object starts with `{` and ends with `}`, and is the stripped form of a piece of the input; the pieces and the pending text make up the input |
| Seqs.ToMapLastWins | lettuce/FedLettuce/groundtruth_checking.py:40-48 | a dict built by successive assignments has as keys the assigned keys, and maps each to its last assigned value |

## Left out

- The Flower plumbing (`configure_fit`, evaluation, the apps, simulation) is not modelled. A
  fit result is a `FitRes` value holding the parameter arrays and the example count. The
  arrays are richer than an optional string, so both "skip an empty array list" and "read
  only the first array" are visible.
- The numpy `frombuffer`/`tobytes` and UTF-8 `encode`/`decode` steps are the identity on text.
  A decode failure at lettuce/FedLettuce/server.py:31 would raise uncaught; that is not modelled.
- `random.seed(42)` and `random.shuffle` are not modelled. The constructor takes the shuffled
  key as a parameter and requires it to be a permutation of the alphabet. Every client and the
  decrypting server therefore share one key, standing for the seed-42 key they all rebuild.
- lettuce/FedLettuce/client_encrypt.py and server_decrypt.py import a `SubstitutionCipher`
  that lettuce/FedLettuce/cipher.py does not define; the class it defines, `SimpleCipher`, is
  the one modelled.
- `subprocess.run` and `ast.literal_eval` are function parameters returning `Option`; `None`
  stands for an exception the `try` block catches. In `call_lettuce_simple`
  (lettuce/FedLettuce/groundtruth_checking.py:50-57) the return code and stderr are only
  printed, so they are not modelled there. In `capture_raw_lettuce_output` the return code
  decides whether the analysis runs at all (lettuce/FedLettuce/debug_lettuce_output.py:26);
  DebugOutput.CaptureAnalysis models only the `returncode == 0` branch. `json.loads` and the later parsing attempts of
  lettuce/FedLettuce/debug_lettuce_output.py (lines 84 onwards) are left out.
- A `Vector Search Results` value that is not a list of dicts, and `query`, `concept`,
  `content` or `llm_answer` values that are not strings, are out of scope. A missing `query`,
  `Vector Search Results` or `llm_answer` key is modelled: the lookup raises `KeyError`, the
  `except` clause catches it, and the dict is `None`.
- Printing, timing (`time.time`) and `gc.collect()` are left out.
- `NUM_CLIENTS` from lettuce/FedLettuce/config.py is not part of this model. The sequential
  client loops over the given partitions, one per client id. Loading a partition
  (`load_clientdata`) and running the checker on it are replaced by the partition's wrong
  terms as input.
- GroundTruth.GroundTruthChecker: when the CLI call failed, `results_dict` is `None` and
  `input_term in results_dict` raises `TypeError` on the first row. This is modelled as
  `Failure(NoResults)`; the exception's propagation to the client is not.
- GroundTruth.Standardise, GroundTruth.DeleteNonWord and Text.Lower: ASCII only. `\W` is
  modelled over the ASCII word characters (letters, digits, `_`), `lower` folds only `A`-`Z`,
  and `strip` removes only the ASCII whitespace characters (space, `\t`-`\r`, 0x1C-0x1F). Python's Unicode semantics
  (non-ASCII letters as word characters, Unicode case folding) are not captured.
- lettuce/FedLettuce/client.py (differential-privacy noise, floating point), the data
  partitioner, the GPU checkers, the Streamlit UI, testing_cli.py and the nonflower-attempts
  scripts are not part of this model.
