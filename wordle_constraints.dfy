/** The constraints the Wordle filter derives from one guess and its verdict
    string, and the rule that rejects a candidate word.

    `Wordle.filter` (wordle.py:119-160) builds three structures while walking
    the guess and the verdict together:
      - `missing`, a set of letters no candidate may contain;
      - `members`, a `collections.Counter` of the letters marked `g` or `y`,
        modelled here as a `multiset<char>`;
      - `pos_info`, a dict from a position to `"c"` (letter `c` locked there,
        verdict `g`) or `"-c"` (letter `c` banned there, verdict `y`).
    The functions below give each structure as a left-to-right fold over the
    first `n` positions, exactly as the loop builds it. */
module WordleConstraints {
  import opened Lowercase

  datatype Constraints = Constraints(missing: set<char>, members: multiset<char>, posInfo: map<nat, string>)

  /** Number of positions `zip(word, validation_string)` walks. */
  function ZipLen(guess: string, verdict: string): (n: nat)
    ensures n <= |guess| && n <= |verdict|
    ensures n == |guess| || n == |verdict|
  {
    if |guess| <= |verdict| then |guess| else |verdict|
  }

  /** Verdict symbols: anything that is neither '.' nor 'y' takes the
      `else` branch of the loop and acts as 'g'. */
  predicate IsMarked(t: char) { t != '.' }
  predicate IsGreen(t: char) { t != '.' && t != 'y' }

  /** The `pos_info` value recorded for letter `c` with verdict `t`. */
  function InfoFor(c: char, t: char): string {
    if t == 'y' then ['-', c] else [c]
  }

  /** The `pos_info` dict after the first `n` positions. */
  function PosInfo(guess: string, verdict: string, n: nat): (r: map<nat, string>)
    requires n <= |guess| && n <= |verdict|
    ensures forall idx: nat :: idx in r <==> idx < n && IsMarked(verdict[idx])
    ensures forall idx :: idx in r ==> r[idx] == InfoFor(guess[idx], verdict[idx])
  {
    if n == 0 then map[]
    else
      var m := PosInfo(guess, verdict, n - 1);
      if verdict[n - 1] == '.' then m
      else m[n - 1 := InfoFor(guess[n - 1], verdict[n - 1])]
  }

  /** `any([c in key for key in pos_info.values()])`: the letter occurs as a
      substring of some stored value. */
  predicate SeenIn(posInfo: map<nat, string>, c: char) {
    exists key :: key in posInfo.Values && c in key
  }

  /** The `missing` set after the first `n` positions: a '.' letter is added
      unless an entry recorded at an EARLIER position already holds it. */
  function Missing(guess: string, verdict: string, n: nat): set<char>
    requires n <= |guess| && n <= |verdict|
  {
    if n == 0 then {}
    else
      var prev := Missing(guess, verdict, n - 1);
      if verdict[n - 1] == '.' && !SeenIn(PosInfo(guess, verdict, n - 1), guess[n - 1])
      then prev + {guess[n - 1]}
      else prev
  }

  /** The `members` counter after the first `n` positions. */
  function Members(guess: string, verdict: string, n: nat): multiset<char>
    requires n <= |guess| && n <= |verdict|
  {
    if n == 0 then multiset{}
    else
      var prev := Members(guess, verdict, n - 1);
      if verdict[n - 1] == '.' then prev else prev + multiset{guess[n - 1]}
  }

  /** Indices among the first `n` where letter `c` received a `g` or `y`. */
  function MarkIndices(guess: string, verdict: string, c: char, n: nat): set<nat>
    requires n <= |guess| && n <= |verdict|
  {
    set i: nat | i < n && IsMarked(verdict[i]) && guess[i] == c
  }

  /** The constraints the encoding phase of the filter produces. */
  function Encode(guess: string, verdict: string): Constraints {
    var n := ZipLen(guess, verdict);
    Constraints(Missing(guess, verdict, n), Members(guess, verdict, n), PosInfo(guess, verdict, n))
  }

  /** A `pos_info` value of one of the two shapes the loop stores. */
  predicate Shaped(info: string) {
    (|info| == 2 && info[0] == '-' && info[1] != '-') || (|info| == 1 && info[0] != '-')
  }

  /** Every `pos_info` entry indexes into a word of length `len` and has one
      of the two shapes, so the pruning loop neither leaves the word nor
      reads past the value. */
  predicate WellShaped(k: Constraints, len: nat) {
    forall idx :: idx in k.posInfo ==> idx < len && Shaped(k.posInfo[idx])
  }

  /** One `pos_info` entry rules the candidate out: a banned letter sits at
      its position, or a locked position holds another letter. */
  predicate Violates(option: string, idx: nat, info: string)
    requires idx < |option| && Shaped(info)
  {
    if '-' in info then option[idx] == info[1] else [option[idx]] != info
  }

  /** The candidate lands in `illegal_words`: it holds a missing letter, it
      breaks a positional entry, or it has fewer copies of some member letter
      than the counter asks for. */
  predicate Rejected(option: string, k: Constraints)
    requires WellShaped(k, |option|)
  {
    (exists c :: c in option && c in k.missing)
    || (exists idx :: idx in k.posInfo && Violates(option, idx, k.posInfo[idx]))
    || (exists m :: m in k.members && multiset(option)[m] < k.members[m])
  }

  /** `words - illegal_words`. */
  function Prune(words: set<string>, k: Constraints): set<string>
    requires forall w :: w in words ==> WellShaped(k, |w|)
  {
    set w | w in words && !Rejected(w, k)
  }

  // ---------------------------------------------------------------------
  // Properties of the encoding

  /** The guess letters are lowercase, so no stored value holds '-' as its
      letter and every value has one of the two shapes. */
  lemma EncodeWellShaped(guess: string, verdict: string, len: nat)
    requires IsLowercase(guess) && ZipLen(guess, verdict) <= len
    ensures WellShaped(Encode(guess, verdict), len)
  {
  }

  /** Some index below `i` marks letter `c` with `g` or `y`. */
  predicate MarkedBefore(guess: string, verdict: string, c: char, i: nat)
    requires i <= |guess| && i <= |verdict|
  {
    exists j :: 0 <= j < i && IsMarked(verdict[j]) && guess[j] == c
  }

  /** For a lowercase letter, "seen in `pos_info`" means exactly "marked `g`
      or `y` at an earlier position". */
  lemma SeenInPosInfo(guess: string, verdict: string, n: nat, c: char)
    requires n <= |guess| && n <= |verdict|
    requires c != '-'
    ensures SeenIn(PosInfo(guess, verdict, n), c) <==> MarkedBefore(guess, verdict, c, n)
  {
    var p := PosInfo(guess, verdict, n);
    if SeenIn(p, c) {
      var key :| key in p.Values && c in key;
      var j :| j in p && p[j] == key;
      assert guess[j] == c;
    }
    if MarkedBefore(guess, verdict, c, n) {
      var j :| 0 <= j < n && IsMarked(verdict[j]) && guess[j] == c;
      assert j in p;
      assert c in p[j];
    }
  }

  /** Position `i` holds a '.' copy of `c` with no `g`/`y` copy before it. */
  predicate FirstAbsent(guess: string, verdict: string, c: char, i: nat)
    requires i < |guess| && i < |verdict|
  {
    verdict[i] == '.' && guess[i] == c && !MarkedBefore(guess, verdict, c, i)
  }

  /** One step of the `missing` fold, with the substring test replaced by
      the marks it stands for. */
  lemma MissingStep(guess: string, verdict: string, n: nat, c: char)
    requires 0 < n <= |guess| && n <= |verdict|
    requires IsLowercase(guess)
    ensures c in Missing(guess, verdict, n)
        <==> c in Missing(guess, verdict, n - 1) || FirstAbsent(guess, verdict, c, n - 1)
  {
    assert IsLowercaseLetter(guess[n - 1]);
    SeenInPosInfo(guess, verdict, n - 1, guess[n - 1]);
  }

  /** A '.' letter joins `missing` exactly when no `g`/`y` mark for it occurs
      at a smaller index; a later '.' adds nothing. */
  lemma {:induction false} MissingExactly(guess: string, verdict: string, n: nat, c: char)
    requires n <= |guess| && n <= |verdict|
    requires IsLowercase(guess)
    ensures c in Missing(guess, verdict, n)
        <==> exists i :: 0 <= i < n && FirstAbsent(guess, verdict, c, i)
  {
    if n > 0 {
      MissingExactly(guess, verdict, n - 1, c);
      MissingStep(guess, verdict, n, c);
      if FirstAbsent(guess, verdict, c, n - 1) {
        assert exists i :: 0 <= i < n && FirstAbsent(guess, verdict, c, i);
      }
      if i :| 0 <= i < n && FirstAbsent(guess, verdict, c, i) {
        assert i < n - 1 ==> exists i' :: 0 <= i' < n - 1 && FirstAbsent(guess, verdict, c, i');
      }
    }
  }

  /** A '.' letter that was already marked `g` or `y` at an earlier index
      adds no constraint at all: step `i` leaves `missing`, the counter and
      `pos_info` as they were, so in particular no ban is recorded at `i`. */
  lemma AbsentAfterMarkIsInert(guess: string, verdict: string, i: nat)
    requires i < |guess| && i < |verdict|
    requires IsLowercase(guess)
    requires verdict[i] == '.'
    requires MarkedBefore(guess, verdict, guess[i], i)
    ensures Missing(guess, verdict, i + 1) == Missing(guess, verdict, i)
    ensures Members(guess, verdict, i + 1) == Members(guess, verdict, i)
    ensures PosInfo(guess, verdict, i + 1) == PosInfo(guess, verdict, i)
    ensures i !in PosInfo(guess, verdict, ZipLen(guess, verdict))
  {
    assert IsLowercaseLetter(guess[i]);
    SeenInPosInfo(guess, verdict, i, guess[i]);
  }

  /** Extending the prefix by one position adds that position to the marks
      of its letter when it is marked, and nothing otherwise. */
  lemma MarkIndicesStep(guess: string, verdict: string, c: char, n: nat)
    requires 0 < n <= |guess| && n <= |verdict|
    ensures MarkIndices(guess, verdict, c, n)
         == MarkIndices(guess, verdict, c, n - 1)
            + (if IsMarked(verdict[n - 1]) && guess[n - 1] == c then {n - 1} else {})
  {
  }

  /** The counter holds, for every letter, the number of positions where that
      letter was marked `g` or `y`. */
  lemma {:induction false} MembersCount(guess: string, verdict: string, n: nat, c: char)
    requires n <= |guess| && n <= |verdict|
    ensures Members(guess, verdict, n)[c] == |MarkIndices(guess, verdict, c, n)|
  {
    if n > 0 {
      MembersCount(guess, verdict, n - 1, c);
      MarkIndicesStep(guess, verdict, c, n);
      assert n - 1 !in MarkIndices(guess, verdict, c, n - 1);
    }
  }

  // ---------------------------------------------------------------------
  // What surviving the filter means

  /** A candidate of the guess's length survives exactly when it contains no
      missing letter, differs from the guess at every `y` position, equals it
      at every `g` position, and holds at least the counted copies of every
      marked letter. */
  lemma SurvivorExactly(guess: string, verdict: string, w: string)
    requires IsLowercase(guess) && |verdict| == |guess| && |w| == |guess|
    ensures WellShaped(Encode(guess, verdict), |w|)
    ensures !Rejected(w, Encode(guess, verdict))
        <==> (forall c :: c in w ==> c !in Missing(guess, verdict, |guess|))
             && (forall i :: 0 <= i < |guess| && verdict[i] == 'y' ==> w[i] != guess[i])
             && (forall i :: 0 <= i < |guess| && IsGreen(verdict[i]) ==> w[i] == guess[i])
             && Members(guess, verdict, |guess|) <= multiset(w)
  {
  }

  /** Every survivor holds each letter at least as often as the guess marked
      that letter `g` or `y`. */
  lemma SurvivorHasMarkedCopies(guess: string, verdict: string, w: string, c: char)
    requires IsLowercase(guess) && |verdict| == |guess| && |w| == |guess|
    requires WellShaped(Encode(guess, verdict), |w|)
    requires !Rejected(w, Encode(guess, verdict))
    ensures multiset(w)[c] >= |MarkIndices(guess, verdict, c, |guess|)|
  {
    SurvivorExactly(guess, verdict, w);
    MembersCount(guess, verdict, |guess|, c);
  }

  /** Pruning only removes words. */
  lemma PruneShrinks(words: set<string>, k: Constraints)
    requires forall w :: w in words ==> WellShaped(k, |w|)
    ensures Prune(words, k) <= words
    ensures |Prune(words, k)| <= |words|
  {
    var r := Prune(words, k);
    assert r <= words;
    assert words == r + (words - r);
  }

  /** Rejection depends only on the word and the constraints, so pruning a
      second time with the same constraints removes nothing more. */
  lemma PruneIdempotent(words: set<string>, k: Constraints)
    requires forall w :: w in words ==> WellShaped(k, |w|)
    ensures forall w :: w in Prune(words, k) ==> WellShaped(k, |w|)
    ensures Prune(Prune(words, k), k) == Prune(words, k)
  {
  }
}
