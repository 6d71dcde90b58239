/** What several modules share: optional values, bytes, and searching in strings. */
module Basics {

  datatype Option<+T> = None | Some(value: T)

  type Byte = b: int | 0 <= b < 256

  predicate OccursAt(text: string, word: string, i: int) {
    0 <= i <= |text| - |word| && text[i..i + |word|] == word
  }

  ghost predicate Mentions(text: string, word: string) {
    exists i :: OccursAt(text, word, i)
  }

  /** strstr(text, word) != NULL */
  method Contains(text: string, word: string) returns (found: bool)
    ensures found <==> Mentions(text, word)
  {
    var i := 0;
    while i + |word| <= |text|
      invariant 0 <= i && forall j :: 0 <= j < i ==> !OccursAt(text, word, j)
    {
      if OccursAt(text, word, i) {
        return true;
      }
      i := i + 1;
    }
    return false;
  }
}
