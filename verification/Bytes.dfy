/** Byte strings and the substring search that the stream reader is built on. */
module Bytes {

  type byte = b: int | 0 <= b < 256
  type Bytes = seq<byte>

  const CR: byte := 13
  const LF: byte := 10
  const DASH: byte := 45
  const CRLF: Bytes := [CR, LF]
  const DASHES: Bytes := [DASH, DASH]
  const BLANK_LINE: Bytes := [CR, LF, CR, LF]

  /** `word` occurs in `text` at position `p`. */
  predicate At(text: Bytes, word: Bytes, p: int) {
    0 <= p && p + |word| <= |text| && text[p..p + |word|] == word
  }

  /** The first position at or after `from` where `word` occurs, or -1: `bytes.find`. */
  function FindFrom(text: Bytes, word: Bytes, from: nat): (r: int)
    ensures r == -1 || (from <= r && At(text, word, r))
    ensures forall q :: from <= q && (r == -1 || q < r) ==> !At(text, word, q)
    decreases |text| - from
  {
    if from + |word| > |text| then -1
    else if At(text, word, from) then from
    else FindFrom(text, word, from + 1)
  }

  function Find(text: Bytes, word: Bytes): (r: int)
    ensures r == -1 || At(text, word, r)
    ensures forall q :: 0 <= q && (r == -1 || q < r) ==> !At(text, word, q)
  {
    FindFrom(text, word, 0)
  }

  /** A first occurrence is what `Find` reports. */
  lemma FindIs(text: Bytes, word: Bytes, p: int)
    requires At(text, word, p)
    requires forall q :: 0 <= q < p ==> !At(text, word, q)
    ensures Find(text, word) == p
  {
  }

  lemma AtHead(text: Bytes, word: Bytes, p: int)
    ensures At(text, word, p) && word != [] ==> text[p] == word[0]
  {
    if At(text, word, p) && word != [] {
      assert text[p..p + |word|][0] == text[p];
    }
  }

  /** Occurrences that lie inside a prefix do not depend on what follows it. */
  lemma AtPrefix(text: Bytes, more: Bytes, word: Bytes, p: int)
    requires p + |word| <= |text|
    ensures At(text + more, word, p) <==> At(text, word, p)
  {
    if 0 <= p {
      assert (text + more)[p..p + |word|] == text[p..p + |word|];
    }
  }

  /** Dropping a prefix shifts every occurrence after it. */
  lemma AtDrop(text: Bytes, word: Bytes, k: nat, p: nat)
    requires k <= |text|
    ensures At(text[k..], word, p) <==> At(text, word, k + p)
  {
    if k + p + |word| <= |text| {
      assert text[k..][p..p + |word|] == text[k + p..k + p + |word|];
    }
  }

  /** A word found in a prefix is found at the same place in the whole. */
  lemma FindExtend(text: Bytes, more: Bytes, word: Bytes)
    ensures Find(text, word) >= 0 ==> Find(text + more, word) == Find(text, word)
    ensures Find(text, word) < 0 ==>
              Find(text + more, word) == -1 || Find(text + more, word) + |word| > |text|
  {
    var p := Find(text, word);
    if p >= 0 {
      AtPrefix(text, more, word, p);
      forall q | 0 <= q < p ensures !At(text + more, word, q) {
        AtPrefix(text, more, word, q);
      }
      FindIs(text + more, word, p);
    } else {
      var r := Find(text + more, word);
      if r >= 0 && r + |word| <= |text| {
        AtPrefix(text, more, word, r);
        assert false;
      }
    }
  }

  function Flatten(chunks: seq<Bytes>): Bytes {
    if chunks == [] then [] else chunks[0] + Flatten(chunks[1..])
  }
}
