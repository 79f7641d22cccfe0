/** Character-class checks shared by the word-list loader and the prompt:
    Python's `set(word) - set(string.ascii_lowercase)` test and the property
    it decides. */
module Lowercase {

  predicate IsLowercaseLetter(c: char) {
    'a' <= c <= 'z'
  }

  /** Every character of `s` is one of `a`..`z`. */
  predicate IsLowercase(s: string) {
    forall i :: 0 <= i < |s| ==> IsLowercaseLetter(s[i])
  }

  /** The characters of `s` outside `a`..`z`, i.e. `set(s) - set(ascii_lowercase)`. */
  function NonLowercase(s: string): (r: set<char>)
    ensures r == {} <==> IsLowercase(s)
  {
    var r := set c | c in s && !IsLowercaseLetter(c);
    assert !IsLowercase(s) ==> exists i :: 0 <= i < |s| && s[i] in r;
    r
  }

  /** The acceptance rule for a dictionary word: the session's length and
      lowercase letters only. */
  predicate IsWordAccepted(word: string, wordLen: int) {
    |word| == wordLen && IsLowercase(word)
  }
}
