/** NullStemmer: the stemmer used when stemming is switched off. */
module NullStemming {

  /** stemWord: every word is its own stem. */
  function StemWord(word: string): string {
    word
  }

  /** stemWords: an immutable copy of the words, each its own stem. */
  function StemWords(words: seq<string>): (r: seq<string>)
    ensures |r| == |words|
    ensures forall i :: 0 <= i < |words| ==> r[i] == StemWord(words[i])
  {
    words
  }

  /** Stemming a second time changes nothing, word by word or in bulk. */
  lemma StemmingIsIdempotent(word: string, words: seq<string>)
    ensures StemWord(StemWord(word)) == StemWord(word)
    ensures StemWords(StemWords(words)) == StemWords(words)
    ensures StemWords(words) == words
  {
  }
}
