/** Occurrences of one text in another. */
module Texts {

  predicate OccursAt(text: string, word: string, i: nat) {
    i + |word| <= |text| && text[i..i + |word|] == word
  }

  predicate Includes(text: string, word: string) {
    exists i :: 0 <= i <= |text| && OccursAt(text, word, i)
  }
}
