/**
 * How the index tokenises a record's text: Python's split with no
 * separator, which cuts a string at runs of whitespace and drops the empty
 * pieces.
 */
module Tokens {
  import opened Strings

  /** The characters Python's `str.split()` treats as whitespace. */
  predicate IsSpace(c: char) {
    || c == ' '
    || ('\t' <= c <= '\r')
    || ('\U{1c}' <= c <= '\U{1f}')
    || c == '\U{85}' || c == '\U{a0}' || c == '\U{1680}'
    || ('\U{2000}' <= c <= '\U{200a}')
    || c == '\U{2028}' || c == '\U{2029}' || c == '\U{202f}' || c == '\U{205f}' || c == '\U{3000}'
  }

  /** What a term is: a non-empty string without whitespace. */
  predicate IsToken(w: string) {
    w != [] && forall i :: 0 <= i < |w| ==> !IsSpace(w[i])
  }

  /** The longest prefix of s without whitespace. */
  function Word(s: string): (w: string)
    ensures |w| <= |s| && w == s[..|w|]
    ensures forall i :: 0 <= i < |w| ==> !IsSpace(w[i])
    ensures |w| < |s| ==> IsSpace(s[|w|])
  {
    if s == [] || IsSpace(s[0]) then [] else [s[0]] + Word(s[1..])
  }

  /** Split with no separator: the maximal whitespace-free pieces of s, in order. */
  function Split(s: string): (words: seq<string>)
    ensures forall k :: 0 <= k < |words| ==> IsToken(words[k])
    decreases |s|
  {
    if s == [] then []
    else if IsSpace(s[0]) then Split(s[1..])
    else
      var w := Word(s);
      [w] + Split(s[|w|..])
  }

  /** The words written out with one space between neighbours. */
  function JoinWords(words: seq<string>): string
  {
    if words == [] then ""
    else if |words| == 1 then words[0]
    else words[0] + " " + JoinWords(words[1..])
  }

  lemma {:induction false} WordOfToken(w: string, t: string)
    requires IsToken(w)
    requires t == [] || IsSpace(t[0])
    ensures Word(w + t) == w
    decreases |w|
  {
    assert (w + t)[1..] == w[1..] + t;
    if |w| > 1 {
      WordOfToken(w[1..], t);
    } else {
      assert w[1..] + t == t;
    }
    assert [w[0]] + w[1..] == w;
  }

  /** The characters of s that are not whitespace, in order. */
  function NonSpace(s: string): string
  {
    if s == [] then [] else (if IsSpace(s[0]) then [] else [s[0]]) + NonSpace(s[1..])
  }

  lemma {:induction false} NonSpaceAppend(a: string, b: string)
    ensures NonSpace(a + b) == NonSpace(a) + NonSpace(b)
    decreases |a|
  {
    if a != [] {
      assert (a + b)[1..] == a[1..] + b;
      NonSpaceAppend(a[1..], b);
    } else {
      assert a + b == b;
    }
  }

  lemma {:induction false} NonSpaceOfToken(w: string)
    requires forall i :: 0 <= i < |w| ==> !IsSpace(w[i])
    ensures NonSpace(w) == w
    decreases |w|
  {
    if w != [] {
      NonSpaceOfToken(w[1..]);
      assert [w[0]] + w[1..] == w;
    }
  }

  /** The first token is not disturbed by what follows a whitespace character. */
  lemma {:induction false} WordAppend(a: string, t: string)
    requires t == [] || IsSpace(t[0])
    ensures Word(a + t) == Word(a)
    decreases |a|
  {
    if a == [] {
      assert a + t == t;
    } else {
      assert (a + t)[0] == a[0];
      assert (a + t)[1..] == a[1..] + t;
      WordAppend(a[1..], t);
    }
  }

  /** A whitespace-free non-empty string is a single piece. */
  lemma SplitOfToken(w: string)
    requires IsToken(w)
    ensures Split(w) == [w]
  {
    WordOfToken(w, []);
    assert w + [] == w;
    assert w[|w|..] == [];
  }

  /** Whatever stands before a whitespace character is split on its own. */
  lemma {:induction false} SplitBeforeSpace(a: string, t: string)
    requires t != [] && IsSpace(t[0])
    ensures Split(a + t) == Split(a) + Split(t[1..])
    decreases |a|
  {
    if a == [] {
      assert a + t == t;
    } else if IsSpace(a[0]) {
      assert (a + t)[1..] == a[1..] + t;
      SplitBeforeSpace(a[1..], t);
    } else {
      WordAppend(a, t);
      var w := Word(a);
      assert (a + t)[|w|..] == a[|w|..] + t;
      SplitBeforeSpace(a[|w|..], t);
    }
  }

  /** A whitespace character separates: the text on either side of it is
      split on its own, and the pieces are put one after the other. */
  lemma SplitAtSpace(a: string, c: char, b: string)
    requires IsSpace(c)
    ensures Split(a + [c] + b) == Split(a) + Split(b)
  {
    assert a + [c] + b == a + ([c] + b);
    assert ([c] + b)[1..] == b;
    SplitBeforeSpace(a, [c] + b);
  }

  /** Splitting undoes joining with single spaces: split recovers exactly the
      terms a text was written from. */
  lemma {:induction false} SplitJoin(words: seq<string>)
    requires forall k :: 0 <= k < |words| ==> IsToken(words[k])
    ensures Split(JoinWords(words)) == words
  {
    if words != [] {
      var w := words[0];
      SplitOfToken(w);
      if |words| > 1 {
        SplitAtSpace(w, ' ', JoinWords(words[1..]));
        SplitJoin(words[1..]);
        assert [w] + words[1..] == words;
      }
    }
  }

  /** The pieces hold exactly the characters of s that are not whitespace,
      in order: nothing is lost but whitespace, and nothing is added. */
  lemma {:induction false} SplitKeepsNonSpace(s: string)
    ensures Concat(Split(s)) == NonSpace(s)
    decreases |s|
  {
    if s != [] {
      if IsSpace(s[0]) {
        SplitKeepsNonSpace(s[1..]);
      } else {
        var w := Word(s);
        var rest := s[|w|..];
        SplitKeepsNonSpace(rest);
        assert ([w] + Split(rest))[1..] == Split(rest);
        assert s == w + rest;
        NonSpaceAppend(w, rest);
        NonSpaceOfToken(w);
      }
    }
  }
}
