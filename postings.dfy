/**
 * The postings of the inverted index as values: the term -> document-id
 * dictionary that `create_inverted_index` builds, the code lists that
 * `compress_index` derives from it, and the bit count of `calculate_sizes`.
 *
 * `BuildIndex` follows the build loop step by step (one append per token
 * occurrence, documents in order). `Expected` is an independent description
 * of the same lists, document by document; the lemmas tie the two together
 * and derive what the lists look like.
 */
module Postings {
  import opened Optional
  import opened EliasCode
  import opened Tokens
  import opened MapSums

  /** A raw index: term -> document ids, one entry per occurrence. */
  type Index = map<string, seq<nat>>

  /** A compressed index: term -> one delta code per entry of the raw list. */
  type CompressedIndex = map<string, seq<string>>

  /** The number of occurrences of x in s. */
  function Count<T(==)>(s: seq<T>, x: T): nat
  {
    if s == [] then 0
    else Count(s[..|s| - 1], x) + (if s[|s| - 1] == x then 1 else 0)
  }

  /** k copies of the document id d. */
  function Repeat(d: nat, k: nat): (r: seq<nat>)
    ensures |r| == k && forall i :: 0 <= i < k ==> r[i] == d
  {
    seq(k, _ => d)
  }

  /** The list stored under w, or the empty list when w is absent (a
      dictionary lookup with an empty default). */
  function Lookup<V>(index: map<string, seq<V>>, w: string): seq<V>
  {
    if w in index then index[w] else []
  }

  predicate NonDecreasing(ids: seq<nat>) {
    forall i, j :: 0 <= i <= j < |ids| ==> ids[i] <= ids[j]
  }

  // ---------------------------------------------------------------------
  // Building the raw index

  /** One token of the build loop: create the list on first sight, then append. */
  function AddOccurrence(index: Index, word: string, docId: nat): Index
  {
    index[word := Lookup(index, word) + [docId]]
  }

  /** The inner loop: the tokens of one document appended in order. */
  function AddWords(index: Index, docId: nat, words: seq<string>): Index
    decreases |words|
  {
    if words == [] then index
    else AddOccurrence(AddWords(index, docId, words[..|words| - 1]), words[|words| - 1], docId)
  }

  /** The outer loop: the documents in order, from an empty dictionary;
      document i has id i (`enumerate`). */
  function BuildIndex(docs: seq<string>): Index
    decreases |docs|
  {
    if docs == [] then map[]
    else AddWords(BuildIndex(docs[..|docs| - 1]), |docs| - 1, Split(docs[|docs| - 1]))
  }

  /** Reference definition of the postings list of w: for each document in
      order, its id once per occurrence of w among the document's tokens. */
  ghost function Expected(docs: seq<string>, w: string): seq<nat>
    decreases |docs|
  {
    if docs == [] then []
    else Expected(docs[..|docs| - 1], w) + Repeat(|docs| - 1, Count(Split(docs[|docs| - 1]), w))
  }

  /** The number of tokens over all documents. */
  function TotalTokens(docs: seq<string>): nat
    decreases |docs|
  {
    if docs == [] then 0 else TotalTokens(docs[..|docs| - 1]) + |Split(docs[|docs| - 1])|
  }

  function ListLength(ids: seq<nat>): nat { |ids| }

  /** The number of entries over all postings lists. */
  ghost function TotalPostings(index: Index): nat
  {
    SumValues(index, ListLength)
  }

  // ---------------------------------------------------------------------
  // Counting

  lemma {:induction false} CountAppend<T>(a: seq<T>, b: seq<T>, x: T)
    ensures Count(a + b, x) == Count(a, x) + Count(b, x)
    decreases |b|
  {
    if b != [] {
      assert (a + b)[..|a + b| - 1] == a + b[..|b| - 1];
      CountAppend(a, b[..|b| - 1], x);
    } else {
      assert a + b == a;
    }
  }

  lemma {:induction false} CountRepeat(d: nat, k: nat, x: nat)
    ensures Count(Repeat(d, k), x) == if x == d then k else 0
  {
    if k > 0 {
      assert Repeat(d, k)[..k - 1] == Repeat(d, k - 1);
      CountRepeat(d, k - 1, x);
    }
  }

  lemma {:induction false} CountPositive<T>(s: seq<T>, x: T)
    ensures Count(s, x) > 0 <==> x in s
  {
    if s != [] {
      CountPositive(s[..|s| - 1], x);
      assert s == s[..|s| - 1] + [s[|s| - 1]];
    }
  }

  // ---------------------------------------------------------------------
  // The built index is the reference one

  /** One append: the list of w grows by the id exactly when w is the token. */
  lemma AddOccurrenceLookup(index: Index, word: string, docId: nat, w: string)
    ensures Lookup(AddOccurrence(index, word, docId), w)
      == Lookup(index, w) + (if word == w then [docId] else [])
    ensures w in AddOccurrence(index, word, docId) <==> w in index || w == word
  {
    if word != w {
      assert Lookup(index, w) + [] == Lookup(index, w);
    }
  }

  /** After one document, w is a key exactly when it was one or is among the tokens. */
  lemma {:induction false} AddWordsKeys(index: Index, docId: nat, words: seq<string>, w: string)
    ensures w in AddWords(index, docId, words) <==> w in index || w in words
    decreases |words|
  {
    if words != [] {
      var front, last := words[..|words| - 1], words[|words| - 1];
      AddWordsKeys(index, docId, front, w);
      AddOccurrenceLookup(AddWords(index, docId, front), last, docId, w);
      assert words == front + [last];
    }
  }

  lemma {:induction false} AddWordsLookup(index: Index, docId: nat, words: seq<string>, w: string)
    ensures Lookup(AddWords(index, docId, words), w) == Lookup(index, w) + Repeat(docId, Count(words, w))
    ensures w in AddWords(index, docId, words) <==> w in index || w in words
    decreases |words|
  {
    AddWordsKeys(index, docId, words, w);
    if words == [] {
      assert Lookup(index, w) + [] == Lookup(index, w);
    } else {
      var front, last := words[..|words| - 1], words[|words| - 1];
      var k := Count(front, w);
      AddWordsLookup(index, docId, front, w);
      AddOccurrenceLookup(AddWords(index, docId, front), last, docId, w);
      if last == w {
        assert Repeat(docId, k) + [docId] == Repeat(docId, k + 1);
      } else {
        assert Repeat(docId, k) + [] == Repeat(docId, k);
      }
    }
  }

  /** Each list of the built index is the reference list, and a term is a
      key exactly when its reference list is not empty. */
  lemma {:induction false} BuildIndexIsExpected(docs: seq<string>, w: string)
    ensures Lookup(BuildIndex(docs), w) == Expected(docs, w)
    ensures w in BuildIndex(docs) <==> Expected(docs, w) != []
    decreases |docs|
  {
    if docs != [] {
      var n := |docs|;
      var words := Split(docs[n - 1]);
      BuildIndexIsExpected(docs[..n - 1], w);
      AddWordsLookup(BuildIndex(docs[..n - 1]), n - 1, words, w);
      CountPositive(words, w);
    }
  }

  lemma {:induction false} ExpectedSortedInRange(docs: seq<string>, w: string)
    ensures NonDecreasing(Expected(docs, w))
    ensures forall i :: 0 <= i < |Expected(docs, w)| ==> Expected(docs, w)[i] < |docs|
    decreases |docs|
  {
    if docs != [] {
      ExpectedSortedInRange(docs[..|docs| - 1], w);
    }
  }

  lemma {:induction false} ExpectedCount(docs: seq<string>, w: string, d: nat)
    ensures Count(Expected(docs, w), d) == if d < |docs| then Count(Split(docs[d]), w) else 0
    decreases |docs|
  {
    if docs != [] {
      var n := |docs|;
      var front := docs[..n - 1];
      ExpectedCount(front, w, d);
      CountAppend(Expected(front, w), Repeat(n - 1, Count(Split(docs[n - 1]), w)), d);
      CountRepeat(n - 1, Count(Split(docs[n - 1]), w), d);
      if d < n - 1 {
        assert front[d] == docs[d];
      }
    }
  }

  lemma {:induction false} ExpectedNonEmpty(docs: seq<string>, w: string)
    ensures Expected(docs, w) != [] <==> exists d :: 0 <= d < |docs| && w in Split(docs[d])
    decreases |docs|
  {
    if docs != [] {
      var n := |docs|;
      var front := docs[..n - 1];
      ExpectedNonEmpty(front, w);
      CountPositive(Split(docs[n - 1]), w);
      if exists d :: 0 <= d < n && w in Split(docs[d]) {
        var d :| 0 <= d < n && w in Split(docs[d]);
        if d < n - 1 {
          assert front[d] == docs[d];
        }
      }
      if exists d :: 0 <= d < n - 1 && w in Split(front[d]) {
        var d :| 0 <= d < n - 1 && w in Split(front[d]);
        assert front[d] == docs[d];
      }
    }
  }

  // ---------------------------------------------------------------------
  // What the built index looks like

  /** The keys are exactly the tokens that occur in some document, and every
      key is a non-empty, whitespace-free token. */
  lemma PostingsKeys(docs: seq<string>, w: string)
    ensures w in BuildIndex(docs) <==> exists d :: 0 <= d < |docs| && w in Split(docs[d])
    ensures w in BuildIndex(docs) ==> IsToken(w)
  {
    BuildIndexIsExpected(docs, w);
    ExpectedNonEmpty(docs, w);
    if w in BuildIndex(docs) {
      var d :| 0 <= d < |docs| && w in Split(docs[d]);
      var k :| 0 <= k < |Split(docs[d])| && Split(docs[d])[k] == w;
    }
  }

  /** Every postings list is non-empty, in document order and holds only
      ids of documents. */
  lemma PostingsSortedInRange(docs: seq<string>, w: string)
    requires w in BuildIndex(docs)
    ensures BuildIndex(docs)[w] != []
    ensures NonDecreasing(BuildIndex(docs)[w])
    ensures forall i :: 0 <= i < |BuildIndex(docs)[w]| ==> BuildIndex(docs)[w][i] < |docs|
  {
    BuildIndexIsExpected(docs, w);
    ExpectedSortedInRange(docs, w);
  }

  /** Document d appears in the list of w once per occurrence of w among d's
      tokens (duplicates are kept), and no other id appears. */
  lemma PostingsMultiplicity(docs: seq<string>, w: string, d: nat)
    ensures Count(Lookup(BuildIndex(docs), w), d)
      == if d < |docs| then Count(Split(docs[d]), w) else 0
  {
    BuildIndexIsExpected(docs, w);
    ExpectedCount(docs, w, d);
  }

  lemma AddOccurrenceTotal(index: Index, word: string, docId: nat)
    ensures TotalPostings(AddOccurrence(index, word, docId)) == TotalPostings(index) + 1
  {
    SumValuesUpdate(index, ListLength, word, Lookup(index, word) + [docId]);
  }

  lemma {:induction false} AddWordsTotal(index: Index, docId: nat, words: seq<string>)
    ensures TotalPostings(AddWords(index, docId, words)) == TotalPostings(index) + |words|
    decreases |words|
  {
    if words != [] {
      AddWordsTotal(index, docId, words[..|words| - 1]);
      AddOccurrenceTotal(AddWords(index, docId, words[..|words| - 1]), words[|words| - 1], docId);
    }
  }

  /** The lists hold one entry per token of the collection. */
  lemma {:induction false} PostingsTotal(docs: seq<string>)
    ensures TotalPostings(BuildIndex(docs)) == TotalTokens(docs)
    decreases |docs|
  {
    if docs == [] {
      assert TotalPostings(map[]) == 0;
    } else {
      PostingsTotal(docs[..|docs| - 1]);
      AddWordsTotal(BuildIndex(docs[..|docs| - 1]), |docs| - 1, Split(docs[|docs| - 1]));
    }
  }

  // ---------------------------------------------------------------------
  // Compression

  /** `compress_index`'s dictionary comprehension: every list replaced by the
      list of the delta codes of its ids, under the same keys. */
  function Compress(index: Index): (c: CompressedIndex)
    ensures c.Keys == index.Keys
  {
    map w | w in index :: EncodeList(index[w])
  }

  /** Decodes a compressed postings list code by code; None when one of the
      codes is not a code. */
  function DecodeList(codes: seq<string>): Option<seq<nat>>
  {
    if codes == [] then Some([])
    else
      match DeltaDecode(codes[0])
      case None => None
      case Some(d) =>
        match DecodeList(codes[1..])
        case None => None
        case Some(rest) => Some([d] + rest)
  }

  lemma {:induction false} DecodeEncodeList(ids: seq<nat>)
    ensures DecodeList(EncodeList(ids)) == Some(ids)
  {
    if ids != [] {
      assert EncodeList(ids)[1..] == EncodeList(ids[1..]);
      DeltaRoundTrip(ids[0]);
      DecodeEncodeList(ids[1..]);
      assert [ids[0]] + ids[1..] == ids;
    }
  }

  /** The compressed index has the raw index's keys, and each of its lists,
      decoded, is the raw list: same ids, same order, same length. */
  lemma CompressRoundTrip(index: Index, w: string)
    ensures w in Compress(index) <==> w in index
    ensures w in index ==> Compress(index)[w] == EncodeList(index[w])
    ensures w in index ==>
      (|Compress(index)[w]| == |index[w]| && DecodeList(Compress(index)[w]) == Some(index[w]))
  {
    if w in index {
      DecodeEncodeList(index[w]);
    }
  }

  /** The same query on both representations finds the same number of
      entries, and the codes found decode to the ids found; an absent term
      finds nothing on either. */
  lemma SearchAgrees(index: Index, query: string)
    ensures Lookup(Compress(index), query) == EncodeList(Lookup(index, query))
    ensures |Lookup(Compress(index), query)| == |Lookup(index, query)|
    ensures DecodeList(Lookup(Compress(index), query)) == Some(Lookup(index, query))
    ensures query !in index ==> Lookup(Compress(index), query) == [] && Lookup(index, query) == []
  {
    CompressRoundTrip(index, query);
    DecodeEncodeList([]);
  }

  // ---------------------------------------------------------------------
  // Size of the compressed index

  /** The number of bits of a list of codes. */
  function CodeBits(codes: seq<string>): nat
  {
    if codes == [] then 0 else CodeBits(codes[..|codes| - 1]) + |codes[|codes| - 1]|
  }

  /** `compressed_bits` of `calculate_sizes`: the lengths of all codes of all terms, summed. */
  ghost function CompressedBits(c: CompressedIndex): nat
  {
    SumValues(c, CodeBits)
  }

  /** Codes of between 1 and `widest` bits each take between one bit per
      code and `widest` bits per code together. */
  lemma {:induction false} CodeBitsBetween(codes: seq<string>, widest: nat)
    requires forall k :: 0 <= k < |codes| ==> 1 <= |codes[k]| <= widest
    ensures |codes| <= CodeBits(codes) <= widest * |codes|
    decreases |codes|
  {
    if codes != [] {
      var n := |codes|;
      CodeBitsBetween(codes[..n - 1], widest);
      ScaledSum(widest, n - 1, 1, CodeBits(codes[..n - 1]), |codes[n - 1]|, n);
    }
  }

  /** Every code has at least one bit, and no id up to `bound` has a longer
      code than `bound` itself; so a list of
      ids up to `bound` takes between |ids| and |code(bound)| * |ids| bits. */
  lemma ListBitsBounds(ids: seq<nat>, bound: nat)
    requires forall i :: 0 <= i < |ids| ==> ids[i] <= bound
    ensures |ids| <= CodeBits(EncodeList(ids)) <= |DeltaEncode(bound)| * |ids|
  {
    var codes := EncodeList(ids);
    forall k | 0 <= k < |codes|
      ensures 1 <= |codes[k]| <= |DeltaEncode(bound)|
    {
      DeltaLengthMonotone(0, ids[k]);
      DeltaLengthMonotone(ids[k], bound);
    }
    CodeBitsBetween(codes, |DeltaEncode(bound)|);
  }

  /** The compressed size of an index whose ids are at most `bound` lies
      between one bit per entry and the length of `bound`'s code per entry. */
  lemma CompressedBitsBounds(index: Index, bound: nat)
    requires forall w, i :: w in index && 0 <= i < |index[w]| ==> index[w][i] <= bound
    ensures TotalPostings(index) <= CompressedBits(Compress(index))
      <= |DeltaEncode(bound)| * TotalPostings(index)
  {
    var c := Compress(index);
    var widest := |DeltaEncode(bound)|;
    forall w | w in index
      ensures ListLength(index[w]) <= CodeBits(c[w]) <= widest * ListLength(index[w])
    {
      ListBitsBounds(index[w], bound);
    }
    SumValuesBetween(index, ListLength, c, CodeBits, widest);
  }

  /** For a collection of n >= 1 documents, the compressed index takes at
      least one bit per token and at most |code(n - 1)| bits per token. */
  lemma BuiltIndexBits(docs: seq<string>)
    requires docs != []
    ensures TotalTokens(docs) <= CompressedBits(Compress(BuildIndex(docs)))
      <= |DeltaEncode(|docs| - 1)| * TotalTokens(docs)
  {
    var index := BuildIndex(docs);
    forall w, i | w in index && 0 <= i < |index[w]|
      ensures index[w][i] <= |docs| - 1
    {
      PostingsSortedInRange(docs, w);
    }
    CompressedBitsBounds(index, |docs| - 1);
    PostingsTotal(docs);
  }

  lemma ExampleSplits()
    ensures Split("a b a") == ["a", "b", "a"] && Split("b c") == ["b", "c"]
  {
    var first, second := ["a", "b", "a"], ["b", "c"];
    assert JoinWords(first) == "a b a" by {
      assert JoinWords(first[2..]) == "a";
      assert JoinWords(first[1..]) == "b a";
    }
    assert JoinWords(second) == "b c" by {
      assert JoinWords(second[1..]) == "c";
    }
    SplitJoin(first);
    SplitJoin(second);
  }

  lemma ExampleFirstDocument()
    ensures AddWords(map[], 0, ["a", "b", "a"]) == map["a" := [0, 0], "b" := [0]]
  {
    var words := ["a", "b", "a"];
    assert words[..2] == ["a", "b"] && words[..2][..1] == ["a"] && words[..2][..1][..0] == [];
    var m1 := AddWords(map[], 0, ["a"]);
    assert m1 == AddOccurrence(map[], "a", 0);
    assert Lookup(map[], "a") + [0] == [0];
    assert m1 == map["a" := [0]];
    var m2 := AddWords(map[], 0, ["a", "b"]);
    assert m2 == AddOccurrence(m1, "b", 0);
    assert "a" != "b";
    assert Lookup(m1, "b") + [0] == [0];
    assert m2 == map["a" := [0], "b" := [0]];
    assert AddWords(map[], 0, words) == AddOccurrence(m2, "a", 0);
    assert Lookup(m2, "a") + [0] == [0, 0];
  }

  lemma ExampleSecondDocument()
    ensures AddWords(map["a" := [0, 0], "b" := [0]], 1, ["b", "c"])
      == map["a" := [0, 0], "b" := [0, 1], "c" := [1]]
  {
    var m: Index := map["a" := [0, 0], "b" := [0]];
    var words := ["b", "c"];
    assert words[..1] == ["b"] && words[..1][..0] == [];
    var m1 := AddWords(m, 1, ["b"]);
    assert "a" != "b" && "a" != "c" && "b" != "c";
    assert m1 == AddOccurrence(m, "b", 1);
    assert Lookup(m, "b") + [1] == [0, 1];
    assert m1 == map["a" := [0, 0], "b" := [0, 1]];
    assert AddWords(m, 1, words) == AddOccurrence(m1, "c", 1);
    assert Lookup(m1, "c") + [1] == [1];
  }

  lemma ExampleCompressed()
    ensures Compress(map["a" := [0, 0], "b" := [0, 1], "c" := [1]])
      == map["a" := ["0", "0"], "b" := ["0", "1"], "c" := ["1"]]
  {
    DeltaOfZeroAndOne();
    assert EncodeList([0, 0]) == ["0", "0"];
    assert EncodeList([0, 1]) == ["0", "1"];
    assert EncodeList([1]) == ["1"];
  }

  /** A worked example: "a b a" and "b c" index to a: [0, 0], b: [0, 1],
      c: [1], whose codes are "0" for id 0 and "1" for id 1. */
  lemma TwoDocumentExample()
    ensures BuildIndex(["a b a", "b c"]) == map["a" := [0, 0], "b" := [0, 1], "c" := [1]]
    ensures Compress(BuildIndex(["a b a", "b c"]))
      == map["a" := ["0", "0"], "b" := ["0", "1"], "c" := ["1"]]
  {
    var docs := ["a b a", "b c"];
    ExampleSplits();
    ExampleFirstDocument();
    ExampleSecondDocument();
    assert docs[..1] == ["a b a"] && docs[..1][..0] == [];
    assert BuildIndex(docs[..1]) == AddWords(map[], 0, Split("a b a"));
    assert BuildIndex(docs) == AddWords(BuildIndex(docs[..1]), 1, Split("b c"));
    ExampleCompressed();
  }

  /** The compressed size in bits: the lengths of all codes of all terms added up. */
  method SumCodeLengths(c: CompressedIndex) returns (bits: nat)
    ensures bits == CompressedBits(c)
  {
    bits := 0;
    var rest := c;
    while rest != map[]
      invariant bits + CompressedBits(rest) == CompressedBits(c)
      decreases |rest|
    {
      var w :| w in rest;
      var listBits := SumListCodeLengths(rest[w]);
      SumValuesPick(rest, CodeBits, w);
      bits := bits + listBits;
      rest := rest - {w};
    }
  }

  /** The inner generator of the same sum: the lengths of one list's codes. */
  method SumListCodeLengths(codes: seq<string>) returns (listBits: nat)
    ensures listBits == CodeBits(codes)
  {
    listBits := 0;
    for i := 0 to |codes|
      invariant listBits == CodeBits(codes[..i])
    {
      assert codes[..i + 1][..i] == codes[..i];
      listBits := listBits + |codes[i]|;
    }
    assert codes[..|codes|] == codes;
  }

}
