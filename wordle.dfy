/** The Wordle solver's state and its filter (class `Wordle` in wordle.py).

    The object keeps the candidate words in `words` (Python's `_words`,
    exposed by the `words` property). `Reset` loads them from the lines of
    the word list; `Filter` removes every word inconsistent with one guess and
    its verdict. The filter's two phases are the methods `EncodeGuess` (the
    loop over the guess) and `IsIllegal` (the test applied to one
    candidate). */
module WordleSolver {
  import opened Lowercase
  import opened WordleConstraints

  /** The encoding phase of `filter`: one pass over `zip(word, validation)`
      building `missing`, `members` and `pos_info`. */
  method EncodeGuess(guess: string, verdict: string) returns (k: Constraints)
    ensures k == Encode(guess, verdict)
  {
    var missing: set<char> := {};
    var members: multiset<char> := multiset{};
    var posInfo: map<nat, string> := map[];
    var n := ZipLen(guess, verdict);
    var idx := 0;
    while idx < n
      invariant 0 <= idx <= n
      invariant missing == Missing(guess, verdict, idx)
      invariant members == Members(guess, verdict, idx)
      invariant posInfo == PosInfo(guess, verdict, idx)
    {
      var c, t := guess[idx], verdict[idx];
      if t == '.' {
        if !(exists key :: key in posInfo.Values && c in key) {
          missing := missing + {c};
        }
      } else if t == 'y' {
        members := members + multiset{c};
        if idx !in posInfo {
          posInfo := posInfo[idx := ['-', c]];
        }
      } else {
        members := members + multiset{c};
        if idx !in posInfo {
          posInfo := posInfo[idx := [c]];
        }
      }
      idx := idx + 1;
    }
    k := Constraints(missing, members, posInfo);
  }

  /** The pruning test for one candidate: the missing-letter check, then the
      walk over `pos_info.items()`, then (only if no entry broke out) the walk
      over `members.items()`. */
  method IsIllegal(option: string, k: Constraints) returns (illegal: bool)
    requires WellShaped(k, |option|)
    ensures illegal == Rejected(option, k)
  {
    var optionSet := set c | c in option;
    if |optionSet * k.missing| > 0 {
      // contains missing characters
      assert exists c :: c in optionSet * k.missing;
      return true;
    }
    forall c | c in option ensures c !in k.missing {
      assert c in optionSet;
      assert c !in optionSet * k.missing;
    }
    var entries := k.posInfo.Keys;
    while entries != {}
      invariant entries <= k.posInfo.Keys
      invariant forall idx :: idx in k.posInfo && idx !in entries ==> !Violates(option, idx, k.posInfo[idx])
      decreases entries
    {
      var idx :| idx in entries;
      var info := k.posInfo[idx];
      var c := option[idx];
      if '-' in info {
        if c == info[1] {
          // character in illegal position
          return true;
        }
      } else if [c] != info {
        // character is incorrect
        return true;
      }
      entries := entries - {idx};
    }
    var counts := multiset(option);
    var pending := set m | m in k.members;
    while pending != {}
      invariant pending <= set m | m in k.members
      invariant forall m :: m in k.members && m !in pending ==> counts[m] >= k.members[m]
      decreases pending
    {
      var m :| m in pending;
      if counts[m] < k.members[m] {
        // missing minimum count of known characters
        return true;
      }
      pending := pending - {m};
    }
    return false;
  }

  class Wordle {
    const wordLen: int
    var words: set<string>

    /** Every stored word has the session's length and only lowercase letters. */
    predicate Valid()
      reads this
    {
      forall w :: w in words ==> IsWordAccepted(w, wordLen)
    }

    /** `Wordle(word_len)`: records the length and loads the word list
        (`max_guesses` is stored by the source but never read). Any integer
        length is accepted; with a negative one no word is stored. */
    constructor (wordLen: int, lines: seq<string>)
      ensures this.wordLen == wordLen
      ensures Valid()
      ensures words == set line | line in lines && IsWordAccepted(line, wordLen)
    {
      this.wordLen := wordLen;
      words := {};
      new;
      Reset(lines);
    }

    /** `reset`: the store becomes exactly the lines of the word list that
        have length `wordLen` and only letters `a`..`z`; the others are
        skipped silently. */
    method Reset(lines: seq<string>)
      modifies this
      ensures Valid()
      ensures words == set line | line in lines && IsWordAccepted(line, wordLen)
    {
      words := {};
      var i := 0;
      while i < |lines|
        invariant 0 <= i <= |lines|
        invariant words == set line | line in lines[..i] && IsWordAccepted(line, wordLen)
      {
        var word := lines[i];
        assert lines[..i + 1] == lines[..i] + [word];
        if |word| != wordLen || |NonLowercase(word)| > 0 {
          i := i + 1;
          continue;
        }
        words := words + {word};
        i := i + 1;
      }
      assert lines[..i] == lines;
    }

    /** `filter`: the store keeps exactly the words that no constraint of the
        guess rejects. The guess and the verdict are those `prompt` accepts:
        both of the session's length, the guess in lowercase letters. */
    method Filter(guess: string, verdict: string)
      requires Valid()
      requires |guess| == wordLen && |verdict| == wordLen && IsLowercase(guess)
      modifies this
      ensures Valid()
      ensures WellShaped(Encode(guess, verdict), wordLen)
      ensures words == Prune(old(words), Encode(guess, verdict))
      ensures words <= old(words)
    {
      var k := EncodeGuess(guess, verdict);
      EncodeWellShaped(guess, verdict, wordLen);
      var illegal: set<string> := {};
      var pending := words;
      while pending != {}
        invariant words == old(words)
        invariant pending <= words
        invariant illegal == set w | w in words && w !in pending && Rejected(w, k)
        decreases pending
      {
        var option :| option in pending;
        var bad := IsIllegal(option, k);
        if bad {
          illegal := illegal + {option};
        }
        pending := pending - {option};
      }
      words := words - illegal;
    }
  }
}
