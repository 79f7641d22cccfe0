/** The Spelling Bee word finder (`get_words` in spelling_bee.py): walk the
    dictionary lines in order and keep every word that is long enough,
    holds the key letter `chars[0]`, and uses only letters of `chars`.
    The dictionary file is given as the sequence of its stripped lines. */
module SpellingBee {

  /** The three conditions a dictionary word must meet. */
  predicate Selected(word: string, chars: string, minLength: int)
    requires |chars| > 0
  {
    |word| >= minLength && chars[0] in word && forall c :: c in word ==> c in chars
  }

  /** The in-order subsequence of `lines` that meets the conditions,
      repeated lines kept as often as they occur. */
  function Kept(lines: seq<string>, chars: string, minLength: int): (r: seq<string>)
    requires |chars| > 0
    ensures forall w :: w in r ==> Selected(w, chars, minLength)
    ensures |r| <= |lines|
  {
    if lines == [] then []
    else
      var last := lines[|lines| - 1];
      assert lines == lines[..|lines| - 1] + [last];
      Kept(lines[..|lines| - 1], chars, minLength) + (if Selected(last, chars, minLength) then [last] else [])
  }

  /** Each word occurs in the result exactly as often as in the lines when
      it meets the conditions, and not at all otherwise: duplicates are kept. */
  lemma {:induction false} KeptCounts(lines: seq<string>, chars: string, minLength: int, w: string)
    requires |chars| > 0
    ensures multiset(Kept(lines, chars, minLength))[w]
         == if Selected(w, chars, minLength) then multiset(lines)[w] else 0
  {
    if lines != [] {
      var init, last := lines[..|lines| - 1], lines[|lines| - 1];
      assert lines == init + [last];
      KeptCounts(init, chars, minLength, w);
    }
  }

  /** One more line is kept at the end exactly when it meets the conditions. */
  lemma KeptSnoc(lines: seq<string>, line: string, chars: string, minLength: int)
    requires |chars| > 0
    ensures Kept(lines + [line], chars, minLength)
         == Kept(lines, chars, minLength) + (if Selected(line, chars, minLength) then [line] else [])
  {
  }

  /** Keeping distributes over concatenation: the words kept from a
      dictionary appear in the dictionary's own order. */
  lemma {:induction false} KeptAppend(a: seq<string>, b: seq<string>, chars: string, minLength: int)
    requires |chars| > 0
    ensures Kept(a + b, chars, minLength) == Kept(a, chars, minLength) + Kept(b, chars, minLength)
  {
    if b == [] {
      assert a + b == a;
    } else {
      var b', last := b[..|b| - 1], b[|b| - 1];
      assert b == b' + [last];
      assert a + b == (a + b') + [last];
      KeptAppend(a, b', chars, minLength);
      KeptSnoc(a + b', last, chars, minLength);
      KeptSnoc(b', last, chars, minLength);
    }
  }

  /** `len(set(word) - set(chars)) == 0` holds exactly when every letter of
      the word occurs in `chars`. */
  lemma NoForeignLetters(word: string, chars: string)
    ensures |(set c | c in word) - (set c | c in chars)| == 0 <==> forall c :: c in word ==> c in chars
  {
    var wordset, charset := set c | c in word, set c | c in chars;
    if wordset - charset != {} {
      var c :| c in wordset - charset;
      assert c in word && c !in chars;
    } else {
      forall c | c in word ensures c in chars {
        assert c in wordset;
        assert c !in wordset - charset;
      }
    }
  }

  /** `get_words` over the given lines: the result is exactly the kept
      subsequence, and every returned word meets all three conditions. */
  method GetWords(chars: string, minLength: int, lines: seq<string>) returns (words: seq<string>)
    requires |chars| > 0
    ensures words == Kept(lines, chars, minLength)
    ensures forall w :: w in words ==> |w| >= minLength
    ensures forall w :: w in words ==> chars[0] in w
    ensures forall w :: w in words ==> forall c :: c in w ==> c in chars
  {
    words := [];
    var charset := set c | c in chars;
    var i := 0;
    while i < |lines|
      invariant 0 <= i <= |lines|
      invariant words == Kept(lines[..i], chars, minLength)
    {
      var word := lines[i];
      assert lines[..i + 1] == lines[..i] + [word];
      KeptSnoc(lines[..i], word, chars, minLength);
      if |word| < minLength {
        i := i + 1;
        continue;
      }
      var wordset := set c | c in word;
      NoForeignLetters(word, chars);
      if chars[0] in wordset && |wordset - charset| == 0 {
        words := words + [word];
      }
      i := i + 1;
    }
    assert lines[..i] == lines;
  }
}
