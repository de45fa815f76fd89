# Inverted index with Elias delta compression, in Dafny

This project models the `InvertedIndex` class of a small Python search tool.
The class builds a term → document-id postings index from the text of a
collection of records and compresses every document id with the Elias δ code.
It counts the bits of the compressed index and looks terms up in either
representation. The class appears twice, byte for byte the same, in
`inverted_index.py` and `index_search.py`, with the same line numbers. The
model covers both files; the table cites `inverted_index.py`.

Layout:

- `optional.dfy`: module `Optional`, a value that may be missing (Python's `None`).
- `strings.dfy`: module `Strings`, strings joined end to end.
- `elias.dfy`: module `EliasCode`. It has the γ and δ encoders, binary
  numerals and the exact floor logarithm. The two static encoder methods of the class
  are module-level functions here. The module also has a decoder, which is the
  inverse the encoder's properties are proved against: round trip,
  injectivity, prefix-freeness over positive numbers, and unique splitting
  of a concatenation of codes.
- `tokens.dfy`: module `Tokens`. This is Python's `str.split()` with no
  separator, using Python's set of whitespace characters. The lemmas pin
  the result down for every string: a whitespace-free string is one
  piece, a whitespace character splits the text on either side of it
  independently, and the pieces hold exactly the non-whitespace characters.
- `map_sums.dfy`: module `MapSums`. It sums a weight over the values of a
  dictionary, and the sum does not depend on the order of the keys.
- `postings.dfy`: module `Postings`. It holds the build loop as a function
  (`AddOccurrence`, `AddWords`, `BuildIndex`) and an independent reference
  definition (`Expected`, each document's id once per occurrence of the
  term). The lemmas relate the two. The module also has compression,
  lookup, the compressed bit count and a worked two-document example.
- `inverted_index.dfy`: module `IndexEngine`. It has the repeat rule applied
  on loading and the class `InvertedIndex`. The class has three optional
  fields, an invariant `Valid()` and one method per instance method of
  the Python class. Each
  method's postcondition gives the new state in terms of the functions above.

## Model

| member | source | states |
|---|---|---|
| EliasCode.Binary | inverted_index.py:42 | the binary numeral of n without the `0b` prefix (also line 49): at least one digit, only '0'/'1', a leading '1' for n >= 1; its value is n by ValueOfBinary |
| EliasCode.GammaEncode | inverted_index.py:38-43 | the γ code of `number`: "0" for 0, otherwise the floor logarithm's count of zeros then the numeral; exact shape in GammaShape, values in GammaExample |
| EliasCode.DeltaEncode | inverted_index.py:46-51 | the δ code of `number`: "0" for 0, otherwise γ of the numeral's length then the numeral without its leading 1; exact shape in DeltaShape, inverse in DeltaRoundTrip |
| EliasCode.GammaExample | inverted_index.py:38-43 | γ(4) is "00100" |
| EliasCode.DeltaExamples | inverted_index.py:46-51 | δ(2) is "0100", δ(5) is "01101" and δ(17) is "001010001" |
| EliasCode.DeltaExample | inverted_index.py:49-51 | the δ code of n is the zeros, the numeral of n's bit length, then n's numeral without its leading 1 |
| EliasCode.FloorLog2 | inverted_index.py:41 | the integer part of log2(n) for n >= 1: the r with 2^r <= n < 2^(r+1) |
| EliasCode.BitLengthIsFloorLog2 | inverted_index.py:41-42 | 1 + floor(log2 n) equals the length of the binary numeral of n, so the γ code's zero count is the numeral's length less one |
| EliasCode.ValueOfBinary | inverted_index.py:42 | the binary numeral of n (without the `0b` prefix) denotes n |
| EliasCode.BinaryInjective | inverted_index.py:42 | different numbers have different binary numerals |
| EliasCode.BitLengthMonotone | inverted_index.py:42 | a larger number never has a shorter numeral |
| EliasCode.GammaShape | inverted_index.py:38-43 | for k >= 1 the γ code is bitlen(k) - 1 zeros then bin(k); length 2·bitlen(k) - 1, only '0'/'1', first '1' at index bitlen(k) - 1 |
| EliasCode.GammaOfZero | inverted_index.py:39-40 | γ(0) is "0" |
| EliasCode.GammaLengthMonotone | inverted_index.py:38-43 | a <= b implies \|γ(a)\| <= \|γ(b)\| |
| EliasCode.GammaInjective | inverted_index.py:38-43 | γ(a) = γ(b) implies a = b, for all a, b >= 0 |
| EliasCode.GammaPrefixFree | inverted_index.py:38-43 | for a, b >= 1, if γ(a) is a prefix of γ(b) then a = b |
| EliasCode.DeltaShape | inverted_index.py:46-51 | for n >= 1 the δ code is γ(bitlen(n)) followed by bin(n) without its leading 1, i.e. zeros, bin(bitlen(n)), the low bits of n; length bitlen(n) + 2·bitlen(bitlen(n)) - 2; only '0'/'1' |
| EliasCode.DeltaOfZeroAndOne | inverted_index.py:46-51 | δ(0) is "0" and δ(1) is "1" |
| EliasCode.DeltaLengthMonotone | inverted_index.py:46-51 | a <= b implies \|δ(a)\| <= \|δ(b)\| |
| EliasCode.ZeroCodePrefixesLargerCodes | inverted_index.py:47-51 | for n >= 2 the code "0" of 0 is a proper prefix of δ(n), so the code set is not prefix-free once 0 is included |
| EliasCode.DeltaRoundTrip | inverted_index.py:46-51 | decoding δ(n) gives back n, for every n >= 0 |
| EliasCode.DeltaInjective | inverted_index.py:46-51 | δ(a) = δ(b) implies a = b, for all a, b >= 0 |
| EliasCode.DeltaPrefixFree | inverted_index.py:46-51 | for a, b >= 1, if δ(a) is a prefix of δ(b) then a = b |
| EliasCode.DecodeAtCode | inverted_index.py:46-51 | a δ code of n >= 1 found anywhere in a string decodes there to n and ends exactly where the code ends (self-delimiting) |
| EliasCode.DecodeConcatenation | inverted_index.py:46-51 | the δ codes of a list of positive ids, written one after another, split back into exactly that list |
| EliasCode.EncodeList | inverted_index.py:58 | the code list has one code per id, in order: element i is δ(ids[i]) |
| Tokens.IsSpace | inverted_index.py:30 | the characters Python's `str.split()` treats as whitespace: space, tab through carriage return, the separators 0x1c-0x1f, 0x85, no-break space and the Unicode space and line/paragraph separators; Split is cut at exactly these |
| Tokens.Word | inverted_index.py:30 | the first token of a string is a prefix without whitespace, ended by whitespace or the end of the string |
| Tokens.Split | inverted_index.py:30 | every piece of the split is non-empty and free of whitespace |
| Tokens.SplitOfToken | inverted_index.py:30 | a non-empty whitespace-free string splits into itself alone |
| Tokens.SplitBeforeSpace | inverted_index.py:30 | text followed by whitespace splits as that text, then whatever follows the whitespace character |
| Tokens.SplitAtSpace | inverted_index.py:30 | for every whitespace character c, split(a + c + b) = split(a) + split(b): pieces never cross whitespace, and runs, tabs, leading and trailing whitespace add no pieces |
| Tokens.SplitKeepsNonSpace | inverted_index.py:30 | the pieces joined end to end are exactly the string's non-whitespace characters in order |
| Tokens.SplitJoin | inverted_index.py:30 | splitting whitespace-free non-empty words joined by single spaces gives back the words |
| MapSums.SumValuesPick | inverted_index.py:73 | a sum over a dictionary's values may start from any key: order of iteration does not matter |
| MapSums.SumValuesUpdate | inverted_index.py:33-34 | replacing one value changes the sum by the change in that value's weight |
| MapSums.SumValuesBetween | inverted_index.py:73 | per-key bounds f <= g <= bound·f on two dictionaries with the same keys carry over to their sums |
| Postings.Lookup | inverted_index.py:85-87 | the dictionary's `get` with an empty-list default; SearchAgrees states what it finds in each representation |
| Postings.AddOccurrence | inverted_index.py:32-34 | one token of the build loop: the list of the token, created empty on first sight, gains the document id; AddOccurrenceLookup states the effect |
| Postings.AddWords | inverted_index.py:31-34 | the inner build loop over one document's tokens in order; AddWordsLookup and AddWordsKeys state the effect |
| Postings.BuildIndex | inverted_index.py:28-34 | the outer build loop from an empty dictionary, document i with id i; BuildIndexIsExpected ties it to the reference lists |
| Postings.AddOccurrenceLookup | inverted_index.py:32-34 | one append adds the id to the list of that token and of no other; the key set gains exactly the token |
| Postings.AddWordsKeys | inverted_index.py:31-34 | after one document, a term is a key iff it was one before or is among the document's tokens |
| Postings.AddWordsLookup | inverted_index.py:31-34 | after one document's tokens are appended, the list of w is the old list plus the document id once per occurrence of w; w is a key iff it was one or it occurs |
| Postings.BuildIndexIsExpected | inverted_index.py:28-34 | the built list of every term equals the reference list (document ids in order, each once per occurrence); a term is a key iff its reference list is non-empty |
| Postings.ExpectedSortedInRange | inverted_index.py:29-34 | the reference list is non-decreasing and its ids are < number of documents |
| Postings.ExpectedCount | inverted_index.py:29-34 | the reference list holds document d exactly as many times as w occurs among d's tokens, and no id out of range |
| Postings.ExpectedNonEmpty | inverted_index.py:29-34 | the reference list is non-empty iff w is a token of some document |
| Postings.PostingsKeys | inverted_index.py:28-34 | the keys of the built index are exactly the tokens occurring in some document, each non-empty and whitespace-free |
| Postings.PostingsSortedInRange | inverted_index.py:28-34 | every built postings list is non-empty, non-decreasing, with ids < len(data) |
| Postings.PostingsMultiplicity | inverted_index.py:29-34 | in the built index, document d appears in the list of w as often as w occurs in d's split text (0 for d out of range) |
| Postings.AddOccurrenceTotal | inverted_index.py:32-34 | one append adds one entry to the total over all lists |
| Postings.AddWordsTotal | inverted_index.py:31-34 | one document adds as many entries as it has tokens |
| Postings.PostingsTotal | inverted_index.py:28-34 | the total length of all postings lists equals the total token count over all documents |
| Postings.Compress | inverted_index.py:57-60 | compression keeps the key set |
| Postings.DecodeEncodeList | inverted_index.py:58 | decoding a compressed list code by code gives back the id list |
| Postings.CompressRoundTrip | inverted_index.py:57-60 | the compressed index has the same keys; each compressed list is the list of δ codes of the raw list, element by element, has its length, and decodes back to it |
| Postings.SearchAgrees | inverted_index.py:84-87 | a query finds in the compressed index exactly the δ codes of the ids it finds in the raw one, as many codes in the compressed index as ids in the raw one, the codes decode to those ids, and an absent term finds [] in both |
| Postings.CodeBits | inverted_index.py:73 | the total length of one list's codes; bounds in CodeBitsBetween |
| Postings.CompressedBits | inverted_index.py:73 | the total length of all codes under all keys; independent of key order by SumValuesPick, bounds in CompressedBitsBounds |
| Postings.CodeBitsBetween | inverted_index.py:73 | codes of 1..widest bits each take between one and widest bits per code together |
| Postings.ListBitsBounds | inverted_index.py:73 | a compressed list of ids <= bound takes between \|ids\| and \|δ(bound)\|·\|ids\| bits |
| Postings.CompressedBitsBounds | inverted_index.py:73 | the compressed index takes between one bit and \|δ(bound)\| bits per posting |
| Postings.BuiltIndexBits | inverted_index.py:28-34 | for n >= 1 documents the compressed index takes between 1 and \|δ(n - 1)\| bits per token of the collection |
| Postings.TwoDocumentExample | inverted_index.py:24-61 | "a b a" and "b c" index to a: [0, 0], b: [0, 1], c: [1], compressed to codes "0" and "1" |
| Postings.SumListCodeLengths | inverted_index.py:73 | the inner loop of the bit count returns the total length of one list's codes |
| Postings.SumCodeLengths | inverted_index.py:73 | the nested loop over all terms and codes returns the compressed bit count, whatever order the keys are visited in |
| IndexEngine.RepeatEach | inverted_index.py:21 | NumPy's repeat of a one-dimensional array: every record k times in a row; length and positions in RepeatEachLength and RepeatEachAt |
| IndexEngine.LoadedData | inverted_index.py:21 | the records repeated six times when fewer than 40000, otherwise unchanged; shape in LoadedDataShape |
| IndexEngine.RepeatEachLength | inverted_index.py:21 | repeating every record k times gives k·len(records) records |
| IndexEngine.RepeatEachAt | inverted_index.py:21 | copy j < k of record i sits at position k·i + j |
| IndexEngine.LoadedDataShape | inverted_index.py:21 | with fewer than 40000 records the data is six times as long, position p holding record p / 6; otherwise it is the records unchanged |
| IndexEngine.AddDocument | inverted_index.py:31-34 | the inner build loop appends the document id to the list of each token in turn, creating lists on first sight |
| IndexEngine.InvertedIndex.constructor | inverted_index.py:13-17 | all three fields start as None |
| IndexEngine.InvertedIndex.LoadData | inverted_index.py:19-22 | data becomes the records with the repeat rule applied, and is returned |
| IndexEngine.InvertedIndex.CreateInvertedIndex | inverted_index.py:24-35 | loads data if missing, then the index becomes the one rebuilt from an empty dictionary over all documents; the compressed index is untouched |
| IndexEngine.InvertedIndex.CompressIndex | inverted_index.py:53-61 | builds the raw index only if missing (an existing one is unchanged), then the compressed index becomes the encoding of every list |
| IndexEngine.InvertedIndex.CalculateSizes | inverted_index.py:63-79 | builds whatever is missing, keeps what exists, and returns the sum of all code lengths of the compressed index |
| IndexEngine.InvertedIndex.Search | inverted_index.py:81-95 | needs the chosen representation built; count equals the number of results and the reference list's length; raw results are the reference list, compressed ones are its δ codes and decode to it; a term in no document gives count 0 |
| IndexEngine.InvertedIndex.Evaluate | inverted_index.py:97-109 | after the sizes are computed, the reported bit count is that of the full compressed index and the reported results count is the raw count, equal to the compressed search's count |

## Left out

- Reading the data file with `np.load` (line 20) is not modelled. The records arrive as the constructor's argument, each given by its 'text' string. `LoadData` applies the repeat rule to them.
- The uncompressed size from `pickle.dumps` (line 70) is left out. It depends on a serialisation format that the program does not define.
- Floating-point results are left out: `compressed_bits / 8`, the `/ 1024` kilobyte figures, `compression_ratio` and its division by zero on an empty index (lines 74, 103-105). The integer bit count is kept.
- EliasCode.FloorLog2: the floating-point `np.log2` of line 41 is replaced by the exact floor logarithm. The two agree for the small bit lengths the δ encoder passes to the γ encoder. For very large arguments they may not.
- Search and evaluation timings from `time.time()` (lines 82, 89, 106-107) are left out, as are `main` and the command line (lines 112-128).
- IndexEngine.InvertedIndex.CreateInvertedIndex: the source empties the field first and appends into it in place. The model builds a local dictionary and assigns it at the end. No other code runs in between, so the final state is the same.
- IndexEngine.InvertedIndex.Search: the source fails at run time when the chosen representation was never built. The model requires it to be built, which `Evaluate` ensures by computing the sizes first.
- Each code is modelled as a string over '0' and '1', as the source stores it. Codes are not packed into bits.
- The decoder (`DeltaDecode`, `DecodeAt`, `DecodeStream`) is not part of the source. It is defined here only so the round-trip, injectivity and prefix-freeness properties can be stated and proved.
- Key order is not modelled. Python dictionaries keep the order in which keys were first inserted; the model's maps are unordered. Nothing in the class depends on the order: the bit count sums over all keys, and the model proves that sum order-independent.
- Aliasing is not modelled. `search` returns the index's own list object, so a caller that changed it would change the index. The model returns the list as a value. No code in the class changes a returned list.
- parser.py, web.py, vk.py and tests/test_parser.py are not part of this model. They do file and network I/O and call outside libraries.
