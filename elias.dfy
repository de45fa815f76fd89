/**
 * The Elias gamma and delta codes as the inverted index writes them:
 * strings over '0' and '1', with 0 given the one-character code "0"
 * (P. Elias, "Universal codeword sets and representations of the
 * integers", IEEE Trans. Information Theory, 1975, defines both codes for
 * positive integers only).
 *
 * The encoders are the index's own; the decoder is their inverse, written
 * here to state what the codes guarantee: every code decodes back to its
 * number, the codes of positive numbers are self-delimiting, and so the
 * code is injective and, over positive numbers, prefix-free.
 */
module EliasCode {
  import opened Optional
  import opened Strings

  predicate IsBits(s: string) {
    forall i :: 0 <= i < |s| ==> s[i] == '0' || s[i] == '1'
  }

  function Zeros(k: nat): (r: string)
    ensures |r| == k && forall i :: 0 <= i < k ==> r[i] == '0'
  {
    seq(k, _ => '0')
  }

  function Pow2(k: nat): (r: nat)
    ensures r >= 1
  {
    if k == 0 then 1 else 2 * Pow2(k - 1)
  }

  /** The binary numeral of n as Python's `bin` writes it without its
      prefix: most significant digit first, no leading zeros ("0" for 0). */
  function Binary(n: nat): (r: string)
    ensures 1 <= |r| && IsBits(r)
    ensures r[0] == (if n == 0 then '0' else '1')
  {
    if n < 2 then [if n == 0 then '0' else '1']
    else Binary(n / 2) + [if n % 2 == 0 then '0' else '1']
  }

  /** The number a string of bits denotes, read most significant bit first. */
  function Value(s: string): nat
  {
    if s == [] then 0
    else 2 * Value(s[..|s| - 1]) + (if s[|s| - 1] == '1' then 1 else 0)
  }

  /** The base-2 logarithm of n >= 1 rounded down, as an exact integer: the
      largest r with 2^r <= n. The encoder takes it in floating point. */
  function FloorLog2(n: nat): (r: nat)
    requires n >= 1
    ensures Pow2(r) <= n < Pow2(r + 1)
  {
    if n == 1 then 0 else 1 + FloorLog2(n / 2)
  }

  /** `elias_gamma_encode`: as many zeros as the bit length less one, then
      the binary numeral; 0 is written "0". */
  function GammaEncode(number: nat): string
  {
    if number == 0 then "0"
    else
      var n := 1 + FloorLog2(number);
      Zeros(n - 1) + Binary(number)
  }

  /** `elias_delta_encode`: the gamma code of the bit length, then the
      binary numeral without its leading 1; 0 is written "0". */
  function DeltaEncode(number: nat): string
  {
    if number == 0 then "0"
    else
      var binary := Binary(number);
      GammaEncode(|binary|) + binary[1..]
  }

  // ---------------------------------------------------------------------
  // Binary numerals

  lemma {:induction false} ValueOfBinary(n: nat)
    ensures Value(Binary(n)) == n
  {
    if n >= 2 {
      ValueOfBinary(n / 2);
      var b := Binary(n);
      assert b[..|b| - 1] == Binary(n / 2);
    }
  }

  lemma {:induction false} BinaryInjective(a: nat, b: nat)
    requires Binary(a) == Binary(b)
    ensures a == b
  {
    ValueOfBinary(a);
    ValueOfBinary(b);
  }

  /** The bit length of n >= 1 is one more than its floor logarithm, so the
      gamma encoder's count of leading zeros plus one is the numeral's length. */
  lemma {:induction false} BitLengthIsFloorLog2(n: nat)
    requires n >= 1
    ensures |Binary(n)| == FloorLog2(n) + 1
  {
    if n >= 2 {
      BitLengthIsFloorLog2(n / 2);
    }
  }

  /** A larger number never has a shorter binary numeral. */
  lemma {:induction false} BitLengthMonotone(a: nat, b: nat)
    requires a <= b
    ensures |Binary(a)| <= |Binary(b)|
  {
    if a >= 2 {
      BitLengthMonotone(a / 2, b / 2);
    }
  }

  // ---------------------------------------------------------------------
  // Shape of the codes

  /** For k >= 1 the gamma code is bitlen(k) - 1 zeros followed by the binary
      numeral of k: 2 * bitlen(k) - 1 bits whose first 1 is at index bitlen(k) - 1. */
  lemma GammaShape(k: nat)
    requires k >= 1
    ensures var len := |Binary(k)|;
      && GammaEncode(k) == Zeros(len - 1) + Binary(k)
      && |GammaEncode(k)| == 2 * len - 1
      && IsBits(GammaEncode(k))
      && (forall i :: 0 <= i < len - 1 ==> GammaEncode(k)[i] == '0')
      && GammaEncode(k)[len - 1] == '1'
  {
    BitLengthIsFloorLog2(k);
  }

  lemma GammaOfZero()
    ensures GammaEncode(0) == "0"
  {
  }

  /** Code length never decreases as the number grows. */
  lemma GammaLengthMonotone(a: nat, b: nat)
    requires a <= b
    ensures |GammaEncode(a)| <= |GammaEncode(b)|
  {
    if a >= 1 {
      GammaShape(a);
      GammaShape(b);
      BitLengthMonotone(a, b);
    } else if b >= 1 {
      GammaShape(b);
    }
  }

  /** Different numbers get different gamma codes, 0 included. */
  lemma GammaInjective(a: nat, b: nat)
    requires GammaEncode(a) == GammaEncode(b)
    ensures a == b
  {
    if a >= 1 && b >= 1 {
      GammaShape(a);
      GammaShape(b);
      var len := |Binary(a)|;
      assert GammaEncode(a)[len - 1..] == Binary(a);
      BinaryInjective(a, b);
    } else if a >= 1 {
      GammaShape(a);
    } else if b >= 1 {
      GammaShape(b);
    }
  }

  /** Over positive numbers no gamma code is a prefix of another: the
      position of the first 1 fixes the code's length. */
  lemma GammaPrefixFree(a: nat, b: nat)
    requires a >= 1 && b >= 1
    requires |GammaEncode(a)| <= |GammaEncode(b)|
    requires GammaEncode(b)[..|GammaEncode(a)|] == GammaEncode(a)
    ensures a == b
  {
    GammaShape(a);
    GammaShape(b);
    var ca, cb := GammaEncode(a), GammaEncode(b);
    var la, lb := |Binary(a)|, |Binary(b)|;
    assert cb[la - 1] == ca[la - 1] == '1';
    assert la == lb;
    assert ca == cb;
    GammaInjective(a, b);
  }

  /** For n >= 1, with L the bit length of n and l that of L, the delta code
      is gamma(L) followed by bin(n) without its leading 1: l - 1 zeros, the
      numeral of L, then the L - 1 low bits of n; L + 2l - 2 bits in all. */
  lemma DeltaShape(n: nat)
    requires n >= 1
    ensures var len := |Binary(n)|; var lenLen := |Binary(len)|;
      && DeltaEncode(n) == GammaEncode(len) + Binary(n)[1..]
      && DeltaEncode(n) == Zeros(lenLen - 1) + Binary(len) + Binary(n)[1..]
      && |DeltaEncode(n)| == len + 2 * lenLen - 2
      && IsBits(DeltaEncode(n))
  {
    GammaShape(|Binary(n)|);
  }

  lemma DeltaOfZeroAndOne()
    ensures DeltaEncode(0) == "0" && DeltaEncode(1) == "1"
  {
  }

  /** Code length never decreases as the number grows. */
  lemma DeltaLengthMonotone(a: nat, b: nat)
    requires a <= b
    ensures |DeltaEncode(a)| <= |DeltaEncode(b)|
  {
    if a >= 1 {
      DeltaShape(a);
      DeltaShape(b);
      BitLengthMonotone(a, b);
      BitLengthMonotone(|Binary(a)|, |Binary(b)|);
    } else if b >= 1 {
      DeltaShape(b);
    }
  }

  /** The quirk of the special case: "0", the code of 0, is a prefix of the
      code of every n >= 2, so the codes are not prefix-free once 0 is among them. */
  lemma ZeroCodePrefixesLargerCodes(n: nat)
    requires n >= 2
    ensures |DeltaEncode(0)| < |DeltaEncode(n)|
    ensures DeltaEncode(n)[..|DeltaEncode(0)|] == DeltaEncode(0)
  {
    DeltaShape(n);
    BitLengthMonotone(2, n);
    BitLengthMonotone(2, |Binary(n)|);
  }

  /** Worked values of both encoders, as the Python functions compute them. */
  lemma GammaExample()
    ensures GammaEncode(4) == "00100"
  {
    assert Binary(4) == "100";
    GammaShape(4);
    assert Zeros(2) == "00";
  }

  lemma DeltaExamples()
    ensures DeltaEncode(2) == "0100" && DeltaEncode(5) == "01101"
    ensures DeltaEncode(17) == "001010001"
  {
    DeltaExample(2, "10", 2, "10", "0100");
    DeltaExample(5, "101", 3, "11", "01101");
    DeltaExample(17, "10001", 5, "101", "001010001");
  }

  /** The delta code of n from the numerals of n and of its bit length. */
  lemma DeltaExample(n: nat, bin: string, len: nat, binLen: string, code: string)
    requires n >= 1 && Binary(n) == bin && |bin| == len && Binary(len) == binLen
    requires code == Zeros(|binLen| - 1) + binLen + bin[1..]
    ensures DeltaEncode(n) == code
  {
    DeltaShape(n);
  }

  // ---------------------------------------------------------------------
  // Decoding

  /** Number of consecutive '0's in s from offset i on. */
  function CountZeros(s: string, i: nat): (z: nat)
    requires i <= |s|
    ensures i + z <= |s|
    decreases |s| - i
  {
    if i < |s| && s[i] == '0' then 1 + CountZeros(s, i + 1) else 0
  }

  /** Reads k bits of s from offset i on, appending them to the number acc
      already read; None when the string ends first or a character is not a bit. */
  function ReadBits(s: string, i: nat, k: nat, acc: nat): (r: Option<nat>)
    requires i <= |s|
    ensures r.Some? ==> i + k <= |s| && r.value >= acc
    decreases k
  {
    if k == 0 then Some(acc)
    else if i >= |s| then None
    else if s[i] == '0' then ReadBits(s, i + 1, k - 1, 2 * acc)
    else if s[i] == '1' then ReadBits(s, i + 1, k - 1, 2 * acc + 1)
    else None
  }

  /** Reads one delta code of a positive number at offset i of s: the zeros,
      the 1 and the z further bits that give the bit length, then that many
      bits less one after an implicit leading 1. Returns the number and the
      offset just after its code, or None when the bits there are truncated
      or are not a code. */
  function DecodeAt(s: string, i: nat): (r: Option<(nat, nat)>)
    requires i <= |s|
    ensures r.Some? ==> i < r.value.1 <= |s|
  {
    var zeros := CountZeros(s, i);
    if i + zeros == |s| || s[i + zeros] != '1' then None
    else
      match ReadBits(s, i + zeros + 1, zeros, 1)
      case None => None
      case Some(len) =>
        match ReadBits(s, i + 2 * zeros + 1, len - 1, 1)
        case None => None
        case Some(n) => Some((n, i + 2 * zeros + len))
  }

  /** Decodes one standalone code, as stored in a compressed postings list. */
  function DeltaDecode(code: string): Option<nat>
  {
    if code == "0" then Some(0)
    else
      match DecodeAt(code, 0)
      case Some((n, end)) => if end == |code| then Some(n) else None
      case None => None
  }

  /** Decodes the concatenation of codes of positive numbers that starts at offset i. */
  function DecodeStream(s: string, i: nat): Option<seq<nat>>
    requires i <= |s|
    decreases |s| - i
  {
    if i == |s| then Some([])
    else
      match DecodeAt(s, i)
      case None => None
      case Some((n, next)) =>
        match DecodeStream(s, next)
        case None => None
        case Some(rest) => Some([n] + rest)
  }

  lemma {:induction false} CountZerosRun(s: string, i: nat, k: nat)
    requires i + k < |s|
    requires forall j :: i <= j < i + k ==> s[j] == '0'
    requires s[i + k] == '1'
    ensures CountZeros(s, i) == k
    decreases k
  {
    if k > 0 {
      CountZerosRun(s, i + 1, k - 1);
    }
  }

  /** Where a copy of c sits at offset i of s, every slice of c sits at the same place. */
  lemma SliceWithin(s: string, i: nat, c: string, x: nat, y: nat)
    requires i + |c| <= |s| && s[i..i + |c|] == c
    requires x <= y <= |c|
    ensures s[i + x..i + y] == c[x..y]
  {
    assert forall j :: x <= j < y ==> c[j] == s[i + j];
  }

  /** Reading the bits t after the bits p already read gives the value of p + t. */
  lemma {:induction false} ReadBitsValue(s: string, i: nat, p: string, t: string)
    requires i + |t| <= |s| && s[i..i + |t|] == t && IsBits(t)
    ensures ReadBits(s, i, |t|, Value(p)) == Some(Value(p + t))
    decreases |t|
  {
    if t != [] {
      var p' := p + [t[0]];
      assert p'[..|p'| - 1] == p;
      assert s[i] == t[0];
      SliceWithin(s, i, t, 1, |t|);
      ReadBitsValue(s, i + 1, p', t[1..]);
      assert p' + t[1..] == p + t;
    } else {
      assert p + t == p;
    }
  }

  /** The three parts of the code of n >= 1, by position: l - 1 zeros, the
      numeral of the bit length L of n (l bits, a 1 first), and the L - 1
      bits of n after its leading 1. */
  lemma DeltaLayout(n: nat)
    requires n >= 1
    ensures var code := DeltaEncode(n); var len := |Binary(n)|; var l := |Binary(len)|;
      && |code| == 2 * l - 1 + (len - 1)
      && (forall j :: 0 <= j < l - 1 ==> code[j] == '0')
      && code[l - 1] == '1'
      && code[l..2 * l - 1] == Binary(len)[1..]
      && code[2 * l - 1..] == Binary(n)[1..]
  {
    DeltaShape(n);
  }

  /** The leading 1 of a positive numeral followed by the rest of it is the numeral. */
  lemma ValueOfTail(n: nat)
    requires n >= 1
    ensures Value("1" + Binary(n)[1..]) == n
  {
    assert "1" + Binary(n)[1..] == Binary(n);
    ValueOfBinary(n);
  }

  /** Reading the bits of n >= 1 after its leading 1, with that 1 already
      read, gives n. */
  lemma ReadNumeralTail(s: string, i: nat, end: nat, n: nat)
    requires n >= 1 && end == i + (|Binary(n)| - 1) && end <= |s|
    requires s[i..end] == Binary(n)[1..]
    ensures ReadBits(s, i, |Binary(n)| - 1, 1) == Some(n)
  {
    var tail := Binary(n)[1..];
    assert IsBits(tail);
    assert Value("1") == 1;
    ReadBitsValue(s, i, "1", tail);
    ValueOfTail(n);
  }

  /** DecodeAt assembled from its three reads: the zeros, the 1 after
      them, the bit length read after that 1, and the remaining bits. */
  lemma DecodeAtReads(s: string, i: nat, l: nat, len: nat, n: nat, end: nat)
    requires l >= 1 && len >= 1 && i + (l - 1) < |s|
    requires CountZeros(s, i) == l - 1 && s[i + (l - 1)] == '1'
    requires ReadBits(s, i + l, l - 1, 1) == Some(len)
    requires ReadBits(s, i + (2 * l - 1), len - 1, 1) == Some(n)
    requires end == i + (2 * l - 1) + (len - 1)
    ensures DecodeAt(s, i) == Some((n, end))
  {
  }

  /** A run of l - 1 zeros closed by a 1 at the start of a copy of code. */
  lemma ZerosField(s: string, i: nat, code: string, l: nat)
    requires 1 <= l <= |code| && i + |code| <= |s| && s[i..i + |code|] == code
    requires forall j :: 0 <= j < l - 1 ==> code[j] == '0'
    requires code[l - 1] == '1'
    ensures CountZeros(s, i) == l - 1 && s[i + (l - 1)] == '1'
  {
    forall j | i <= j < i + (l - 1)
      ensures s[j] == '0'
    {
      assert s[j] == s[i..i + |code|][j - i];
    }
    assert s[i + (l - 1)] == s[i..i + |code|][l - 1];
    CountZerosRun(s, i, l - 1);
  }

  /** The bits of m after its leading 1, found between x and y of a copy of
      code, read back as m. */
  lemma NumeralField(s: string, i: nat, code: string, x: nat, y: nat, m: nat)
    requires m >= 1 && x <= y <= |code| && y == x + (|Binary(m)| - 1)
    requires i + |code| <= |s| && s[i..i + |code|] == code
    requires code[x..y] == Binary(m)[1..]
    ensures ReadBits(s, i + x, |Binary(m)| - 1, 1) == Some(m)
  {
    SliceWithin(s, i, code, x, y);
    ReadNumeralTail(s, i + x, i + y, m);
  }

  /** A copy of a code laid out as l - 1 zeros, a 1, the bits of len after
      its leading 1 and the bits of n after its leading 1 has its fields
      where the decoder reads them. */
  lemma FieldsOfCopy(s: string, i: nat, code: string, l: nat, len: nat, n: nat)
    requires n >= 1 && len >= 1 && l >= 1
    requires |Binary(len)| == l && |Binary(n)| == len
    requires |code| == 2 * l - 1 + (len - 1)
    requires i + |code| <= |s| && s[i..i + |code|] == code
    requires forall j :: 0 <= j < l - 1 ==> code[j] == '0'
    requires code[l - 1] == '1'
    requires code[l..2 * l - 1] == Binary(len)[1..]
    requires code[2 * l - 1..] == Binary(n)[1..]
    ensures CountZeros(s, i) == l - 1 && s[i + (l - 1)] == '1'
    ensures ReadBits(s, i + l, l - 1, 1) == Some(len)
    ensures ReadBits(s, i + (2 * l - 1), len - 1, 1) == Some(n)
  {
    ZerosField(s, i, code, l);
    NumeralField(s, i, code, l, 2 * l - 1, len);
    assert code[2 * l - 1..|code|] == Binary(n)[1..];
    NumeralField(s, i, code, 2 * l - 1, |code|, n);
  }

  /** The bits of code, copied into s from offset i on. */
  predicate CopiedAt(s: string, i: nat, code: string)
  {
    i + |code| <= |s| && forall j {:trigger code[j]} :: 0 <= j < |code| ==> s[i + j] == code[j]
  }

  lemma CopiedAtSlice(s: string, i: nat, code: string)
    requires i + |code| <= |s|
    ensures CopiedAt(s, i, code) <==> s[i..i + |code|] == code
  {
    if CopiedAt(s, i, code) {
      assert forall j :: 0 <= j < |code| ==> s[i..i + |code|][j] == code[j];
    }
  }

  /** Where the code of n >= 1 is copied at offset i, its fields are where
      the decoder reads them. */
  lemma CodeFields(s: string, i: nat, n: nat, code: string) returns (l: nat, len: nat, end: nat)
    requires n >= 1 && code == DeltaEncode(n)
    requires CopiedAt(s, i, code)
    ensures end == i + |code| && end == i + (2 * l - 1) + (len - 1)
    ensures l >= 1 && len >= 1 && i + (l - 1) < |s|
    ensures CountZeros(s, i) == l - 1 && s[i + (l - 1)] == '1'
    ensures ReadBits(s, i + l, l - 1, 1) == Some(len)
    ensures ReadBits(s, i + (2 * l - 1), len - 1, 1) == Some(n)
  {
    len := |Binary(n)|;
    l := |Binary(len)|;
    CopiedAtSlice(s, i, code);
    DeltaLayout(n);
    FieldsOfCopy(s, i, code, l, len, n);
    end := i + |code|;
  }

  /** The code of n >= 1 found at offset i of any string decodes to n and
      ends exactly where the code ends: the code is self-delimiting. */
  lemma DecodeAtCode(s: string, i: nat, n: nat, code: string)
    requires n >= 1 && code == DeltaEncode(n)
    requires CopiedAt(s, i, code)
    ensures DecodeAt(s, i) == Some((n, i + |code|))
  {
    var l, len, end := CodeFields(s, i, n, code);
    DecodeAtReads(s, i, l, len, n, end);
  }

  /** Round trip: every code, 0's included, decodes back to its number. */
  lemma DeltaRoundTrip(n: nat)
    ensures DeltaDecode(DeltaEncode(n)) == Some(n)
  {
    if n >= 1 {
      var code := DeltaEncode(n);
      assert code[0..|code|] == code;
      CopiedAtSlice(code, 0, code);
      DecodeAtCode(code, 0, n, code);
    }
  }

  /** Different numbers, 0 included, have different codes. */
  lemma DeltaInjective(a: nat, b: nat)
    requires DeltaEncode(a) == DeltaEncode(b)
    ensures a == b
  {
    DeltaRoundTrip(a);
    DeltaRoundTrip(b);
  }

  /** Over positive numbers no code is a prefix of another. */
  lemma DeltaPrefixFree(a: nat, b: nat)
    requires a >= 1 && b >= 1
    requires |DeltaEncode(a)| <= |DeltaEncode(b)|
    requires DeltaEncode(b)[..|DeltaEncode(a)|] == DeltaEncode(a)
    ensures a == b
  {
    var ca, cb := DeltaEncode(a), DeltaEncode(b);
    assert cb[0..|ca|] == ca;
    CopiedAtSlice(cb, 0, ca);
    DecodeAtCode(cb, 0, a, ca);
    assert cb[0..|cb|] == cb;
    CopiedAtSlice(cb, 0, cb);
    DecodeAtCode(cb, 0, b, cb);
  }

  /** The codes of a list of numbers, in order: the inner comprehension of
      `compress_index`. */
  function EncodeList(ids: seq<nat>): (codes: seq<string>)
    ensures |codes| == |ids|
    ensures forall k :: 0 <= k < |ids| ==> codes[k] == DeltaEncode(ids[k])
  {
    seq(|ids|, k requires 0 <= k < |ids| => DeltaEncode(ids[k]))
  }

  /** One step of DecodeStream: the first number read at i, then the rest of the stream. */
  lemma DecodeStreamStep(s: string, i: nat, ids: seq<nat>, next: nat)
    requires ids != [] && i <= |s| && DecodeAt(s, i) == Some((ids[0], next))
    requires DecodeStream(s, next) == Some(ids[1..])
    ensures DecodeStream(s, i) == Some(ids)
  {
    assert [ids[0]] + ids[1..] == ids;
  }

  /** Writing the codes out one after another: the first code, then the others. */
  lemma EncodedConcatCons(ids: seq<nat>)
    requires ids != []
    ensures Concat(EncodeList(ids)) == DeltaEncode(ids[0]) + Concat(EncodeList(ids[1..]))
  {
    assert EncodeList(ids)[1..] == EncodeList(ids[1..]);
  }

  lemma CopiedAtSplit(s: string, i: nat, a: string, b: string)
    requires CopiedAt(s, i, a + b)
    ensures CopiedAt(s, i, a) && CopiedAt(s, i + |a|, b)
  {
    assert forall j :: 0 <= j < |a| ==> a[j] == (a + b)[j];
    assert forall j :: 0 <= j < |b| ==> b[j] == (a + b)[|a| + j];
  }

  /** A copy of a stream of codes splits into a copy of the first code
      followed by a copy of the others. */
  lemma SplitHead(s: string, i: nat, ids: seq<nat>) returns (code: string)
    requires ids != [] && CopiedAt(s, i, Concat(EncodeList(ids))) && i + |Concat(EncodeList(ids))| == |s|
    ensures code == DeltaEncode(ids[0]) && CopiedAt(s, i, code)
    ensures CopiedAt(s, i + |code|, Concat(EncodeList(ids[1..])))
    ensures i + |code| + |Concat(EncodeList(ids[1..]))| == |s|
  {
    code := DeltaEncode(ids[0]);
    EncodedConcatCons(ids);
    CopiedAtSplit(s, i, code, Concat(EncodeList(ids[1..])));
  }

  /** The first code of a stream copied at offset i has its fields where
      the decoder reads them, and the copy of the other codes follows. */
  lemma HeadFields(s: string, i: nat, ids: seq<nat>) returns (l: nat, len: nat, next: nat)
    requires ids != [] && ids[0] >= 1
    requires CopiedAt(s, i, Concat(EncodeList(ids))) && i + |Concat(EncodeList(ids))| == |s|
    ensures l >= 1 && len >= 1 && i + (l - 1) < |s|
    ensures CountZeros(s, i) == l - 1 && s[i + (l - 1)] == '1'
    ensures ReadBits(s, i + l, l - 1, 1) == Some(len)
    ensures ReadBits(s, i + (2 * l - 1), len - 1, 1) == Some(ids[0])
    ensures next == i + (2 * l - 1) + (len - 1)
    ensures CopiedAt(s, next, Concat(EncodeList(ids[1..]))) && next + |Concat(EncodeList(ids[1..]))| == |s|
  {
    var code := SplitHead(s, i, ids);
    l, len, next := CodeFields(s, i, ids[0], code);
  }

  /** A stream whose first code's fields are in place and whose rest decodes
      to ids[1..] decodes to ids. */
  lemma StreamFromFields(s: string, i: nat, ids: seq<nat>, l: nat, len: nat, next: nat)
    requires ids != [] && l >= 1 && len >= 1 && i + (l - 1) < |s|
    requires CountZeros(s, i) == l - 1 && s[i + (l - 1)] == '1'
    requires ReadBits(s, i + l, l - 1, 1) == Some(len)
    requires ReadBits(s, i + (2 * l - 1), len - 1, 1) == Some(ids[0])
    requires next == i + (2 * l - 1) + (len - 1) && next <= |s|
    requires DecodeStream(s, next) == Some(ids[1..])
    ensures DecodeStream(s, i) == Some(ids)
  {
    DecodeAtReads(s, i, l, len, ids[0], next);
    DecodeStreamStep(s, i, ids, next);
  }

  /** The codes of a list of positive numbers copied one after another from
      offset i to the end of s split back into exactly that list. */
  lemma {:induction false} DecodeCopiedStream(s: string, i: nat, ids: seq<nat>)
    requires forall k :: 0 <= k < |ids| ==> ids[k] >= 1
    requires CopiedAt(s, i, Concat(EncodeList(ids))) && i + |Concat(EncodeList(ids))| == |s|
    ensures DecodeStream(s, i) == Some(ids)
    decreases |ids|
  {
    if ids != [] {
      var l, len, next := HeadFields(s, i, ids);
      DecodeCopiedStream(s, next, ids[1..]);
      StreamFromFields(s, i, ids, l, len, next);
    } else {
      assert i == |s|;
    }
  }

  /** The codes of a list of positive numbers, written one after another
      from offset i on, split back into exactly that list. */
  lemma DecodeConcatenation(s: string, i: nat, ids: seq<nat>)
    requires forall k :: 0 <= k < |ids| ==> ids[k] >= 1
    requires i <= |s| && s[i..] == Concat(EncodeList(ids))
    ensures DecodeStream(s, i) == Some(ids)
  {
    var t := Concat(EncodeList(ids));
    assert s[i..i + |t|] == t;
    CopiedAtSlice(s, i, t);
    DecodeCopiedStream(s, i, ids);
  }
}
