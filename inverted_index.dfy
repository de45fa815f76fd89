/**
 * The `InvertedIndex` object: three fields that start out missing and are
 * filled on demand, the nested build loop, compression, the bit count of
 * the compressed index, and lookups in either representation.
 *
 * The data file is not read here: the records it holds, each given by its
 * 'text' field, are passed to the constructor, and `LoadData` applies the
 * repeat rule to them.
 */
module IndexEngine {
  import opened Optional
  import opened EliasCode
  import opened Tokens
  import opened Postings

  /** Collections with fewer records than this are repeated on loading... */
  const RepeatBelow: nat := 40000
  /** ...each record this many times in a row. */
  const RepeatCount: nat := 6

  /** NumPy's repeat of a one-dimensional array: every record k times in a
      row, in order. */
  function RepeatEach(records: seq<string>, k: nat): seq<string>
  {
    if records == [] then [] else seq(k, _ => records[0]) + RepeatEach(records[1..], k)
  }

  lemma {:induction false} RepeatEachLength(records: seq<string>, k: nat)
    ensures |RepeatEach(records, k)| == k * |records|
  {
    if records != [] {
      RepeatEachLength(records[1..], k);
      assert k * |records| == k + k * (|records| - 1);
    }
  }

  /** Copy j of record i sits at position k * i + j. */
  lemma {:induction false} RepeatEachAt(records: seq<string>, k: nat, i: nat, j: nat)
    requires i < |records| && j < k
    ensures k * i + j < |RepeatEach(records, k)|
    ensures RepeatEach(records, k)[k * i + j] == records[i]
  {
    var block := seq(k, _ => records[0]);
    var tail := RepeatEach(records[1..], k);
    assert RepeatEach(records, k) == block + tail;
    if i == 0 {
      assert k * i + j == j;
    } else {
      RepeatEachAt(records[1..], k, i - 1, j);
      assert k * i == k + k * (i - 1);
      assert (block + tail)[k + (k * (i - 1) + j)] == tail[k * (i - 1) + j];
    }
  }

  /** What `load_data` leaves in `data`: the file's records, each repeated
      six times in a row when there are fewer than 40000 of them. */
  function LoadedData(stored: seq<string>): seq<string>
  {
    if |stored| < RepeatBelow then RepeatEach(stored, RepeatCount) else stored
  }

  /** A small collection grows six-fold, record i filling positions 6i..6i+5;
      a large one is kept as it is. */
  lemma LoadedDataShape(stored: seq<string>)
    ensures |stored| < RepeatBelow ==>
      |LoadedData(stored)| == RepeatCount * |stored| &&
      forall p :: 0 <= p < |LoadedData(stored)| ==> LoadedData(stored)[p] == stored[p / RepeatCount]
    ensures |stored| >= RepeatBelow ==> LoadedData(stored) == stored
  {
    if |stored| < RepeatBelow {
      RepeatEachLength(stored, RepeatCount);
      forall p | 0 <= p < RepeatCount * |stored|
        ensures LoadedData(stored)[p] == stored[p / RepeatCount]
      {
        RepeatEachAt(stored, RepeatCount, p / RepeatCount, p % RepeatCount);
      }
    }
  }

  /** What `search` finds: document ids in the raw index, codes in the compressed one. */
  datatype Hits = Ids(ids: seq<nat>) | Codes(codes: seq<string>)
  {
    function Length(): nat
    {
      match this
      case Ids(ids) => |ids|
      case Codes(codes) => |codes|
    }
  }

  /** The integer part of `evaluate`'s report. */
  datatype Metrics = Metrics(compressedBits: nat, resultsCount: nat)

  /** The inner loop of `create_inverted_index`: the id of one document
      appended to the list of each of its tokens in turn, a list being
      created on the token's first occurrence. */
  method AddDocument(index: Index, docId: nat, words: seq<string>) returns (updated: Index)
    ensures updated == AddWords(index, docId, words)
  {
    updated := index;
    for j := 0 to |words|
      invariant updated == AddWords(index, docId, words[..j])
    {
      var word := words[j];
      if word !in updated {
        updated := updated[word := []];
      }
      updated := updated[word := updated[word] + [docId]];
      assert words[..j + 1][..j] == words[..j];
    }
    assert words[..|words|] == words;
  }

  class InvertedIndex {
    /** The records of the data file, each by its 'text' field. */
    const stored: seq<string>
    var data: Option<seq<string>>
    var invertedIndex: Option<Index>
    var invertedIndexCompressed: Option<CompressedIndex>

    /** Whatever has been filled in is what loading, building and compressing
        produce, and nothing is filled in before what it is derived from. */
    ghost predicate Valid()
      reads this
    {
      && (data.Some? ==> data.value == LoadedData(stored))
      && (invertedIndex.Some? ==> data.Some? && invertedIndex.value == BuildIndex(data.value))
      && (invertedIndexCompressed.Some? ==>
            invertedIndex.Some? && invertedIndexCompressed.value == Compress(invertedIndex.value))
    }

    constructor (stored: seq<string>)
      ensures Valid()
      ensures this.stored == stored
      ensures data == None && invertedIndex == None && invertedIndexCompressed == None
    {
      this.stored := stored;
      data := None;
      invertedIndex := None;
      invertedIndexCompressed := None;
    }

    method LoadData() returns (loaded: seq<string>)
      requires Valid()
      modifies this`data
      ensures Valid()
      ensures data == Some(LoadedData(stored)) && loaded == data.value
    {
      loaded := LoadedData(stored);
      data := Some(loaded);
    }

    /** Loads the data if needed, then rebuilds the index from an empty
        dictionary; the compressed index is left as it was. */
    method CreateInvertedIndex() returns (index: Index)
      requires Valid()
      modifies this`data, this`invertedIndex
      ensures Valid()
      ensures data == Some(LoadedData(stored))
      ensures invertedIndex == Some(index) && index == BuildIndex(LoadedData(stored))
    {
      if data.None? {
        var _ := LoadData();
      }
      var docs := data.value;
      index := map[];
      for docId := 0 to |docs|
        invariant Valid() && data == Some(docs)
        invariant index == BuildIndex(docs[..docId])
      {
        index := AddDocument(index, docId, Split(docs[docId]));
        assert docs[..docId + 1][..docId] == docs[..docId];
      }
      assert docs[..|docs|] == docs;
      invertedIndex := Some(index);
    }

    /** Builds the raw index if it is missing, then encodes every list; the
        raw index, when it was there, is unchanged. */
    method CompressIndex() returns (compressed: CompressedIndex)
      requires Valid()
      modifies this`data, this`invertedIndex, this`invertedIndexCompressed
      ensures Valid()
      ensures old(invertedIndex).Some? ==> invertedIndex == old(invertedIndex) && data == old(data)
      ensures invertedIndex == Some(BuildIndex(LoadedData(stored)))
      ensures invertedIndexCompressed == Some(compressed) && compressed == Compress(invertedIndex.value)
    {
      if invertedIndex.None? {
        var _ := CreateInvertedIndex();
      }
      compressed := Compress(invertedIndex.value);
      invertedIndexCompressed := Some(compressed);
    }

    /** Builds whatever is missing, then counts the bits of all codes. */
    method CalculateSizes() returns (compressedBits: nat)
      requires Valid()
      modifies this`data, this`invertedIndex, this`invertedIndexCompressed
      ensures Valid()
      ensures old(invertedIndexCompressed).Some? ==>
        invertedIndexCompressed == old(invertedIndexCompressed) && invertedIndex == old(invertedIndex)
      ensures invertedIndex == Some(BuildIndex(LoadedData(stored)))
      ensures invertedIndexCompressed == Some(Compress(invertedIndex.value))
      ensures compressedBits == CompressedBits(invertedIndexCompressed.value)
    {
      if invertedIndex.None? {
        var _ := CreateInvertedIndex();
      }
      if invertedIndexCompressed.None? {
        var _ := CompressIndex();
      }
      compressedBits := SumCodeLengths(invertedIndexCompressed.value);
    }

    /** Looks the query up in the chosen representation, which must already
        have been built; an absent term finds nothing. */
    method Search(query: string, compressed: bool) returns (results: Hits, count: nat)
      requires Valid()
      requires compressed ==> invertedIndexCompressed.Some?
      requires !compressed ==> invertedIndex.Some?
      ensures count == results.Length()
      ensures count == |Expected(LoadedData(stored), query)|
      ensures !compressed ==> results == Ids(Expected(LoadedData(stored), query))
      ensures compressed ==> results == Codes(EncodeList(Expected(LoadedData(stored), query)))
      ensures compressed ==>
        results.Codes? && DecodeList(results.codes) == Some(Expected(LoadedData(stored), query))
      ensures (forall d :: 0 <= d < |LoadedData(stored)| ==> query !in Split(LoadedData(stored)[d])) ==>
        count == 0
    {
      var index := invertedIndex.value;
      BuildIndexIsExpected(data.value, query);
      ExpectedNonEmpty(data.value, query);
      SearchAgrees(index, query);
      if compressed {
        results := Codes(Lookup(invertedIndexCompressed.value, query));
      } else {
        results := Ids(Lookup(index, query));
      }
      count := results.Length();
    }

    /** Sizes, then the same query on both representations; the reported
        count is the raw one, and the compressed search finds as many. */
    method Evaluate(query: string) returns (metrics: Metrics, ghost compressedCount: nat)
      requires Valid()
      modifies this`data, this`invertedIndex, this`invertedIndexCompressed
      ensures Valid()
      ensures invertedIndexCompressed == Some(Compress(BuildIndex(LoadedData(stored))))
      ensures metrics.compressedBits == CompressedBits(Compress(BuildIndex(LoadedData(stored))))
      ensures metrics.resultsCount == |Expected(LoadedData(stored), query)|
      ensures metrics.resultsCount == compressedCount
    {
      var bits := CalculateSizes();
      var rawResults, rawCount := Search(query, false);
      var codeResults, codeCount := Search(query, true);
      compressedCount := codeCount;
      metrics := Metrics(bits, rawCount);
    }
  }
}
