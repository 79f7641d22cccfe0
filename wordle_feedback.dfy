/** Honest Wordle feedback, and what the filter does with it.

    `Score(guess, target)` is the verdict string the game gives: `g` where
    the letters agree; otherwise `y` while the target still has an unmatched
    copy of the letter that no earlier non-green copy in the guess has
    claimed; otherwise `.`.

    The missing-letter rule of the filter (wordle.py:124-128) looks only at
    EARLIER positions. When a guess has a '.' copy of a letter before a
    `g`/`y` copy, the letter lands in `missing`, and the filter removes
    every word holding it, the target included
    (`WrittenFilterDropsTarget`). The evidently intended rule drops a '.'
    letter only when it is marked nowhere in the guess; with it, the target
    always survives honest feedback (`CorrectedFilterKeepsTarget`). */
module WordleFeedback {
  import opened Lowercase
  import opened WordleConstraints

  /** Positions among the first `n` where the guess has `c` and the target
      has another letter. */
  function NonGreen(guess: string, target: string, c: char, n: nat): nat
    requires n <= |guess| == |target|
  {
    if n == 0 then 0
    else NonGreen(guess, target, c, n - 1) + (if guess[n - 1] == c && target[n - 1] != c then 1 else 0)
  }

  /** Positions among the first `n` where the target has `c` and the guess
      has another letter: the copies of `c` left for yellow marks. */
  function Unmatched(guess: string, target: string, c: char, n: nat): nat
    requires n <= |guess| == |target|
  {
    if n == 0 then 0
    else Unmatched(guess, target, c, n - 1) + (if target[n - 1] == c && guess[n - 1] != c then 1 else 0)
  }

  /** Positions among the first `n` where both words have `c`. */
  function Greens(guess: string, target: string, c: char, n: nat): nat
    requires n <= |guess| == |target|
  {
    if n == 0 then 0
    else Greens(guess, target, c, n - 1) + (if guess[n - 1] == c && target[n - 1] == c then 1 else 0)
  }

  /** The verdict symbol the game shows at position `i`. */
  function ScoreAt(guess: string, target: string, i: nat): char
    requires i < |guess| == |target|
  {
    var c := guess[i];
    if c == target[i] then 'g'
    else if NonGreen(guess, target, c, i) < Unmatched(guess, target, c, |guess|) then 'y'
    else '.'
  }

  /** The verdict string the game shows for `guess` against `target`. */
  function Score(guess: string, target: string): (v: string)
    requires |guess| == |target|
    ensures |v| == |guess|
    ensures forall i :: 0 <= i < |v| ==> v[i] == ScoreAt(guess, target, i)
  {
    seq(|guess|, i requires 0 <= i < |guess| => ScoreAt(guess, target, i))
  }

  /** Yellow marks for `c` among the first `n` positions. */
  function Yellows(guess: string, target: string, c: char, n: nat): nat
    requires n <= |guess| == |target|
  {
    if n == 0 then 0
    else Yellows(guess, target, c, n - 1)
         + (if guess[n - 1] == c && ScoreAt(guess, target, n - 1) == 'y' then 1 else 0)
  }

  function Min(a: nat, b: nat): nat { if a <= b then a else b }

  // ---------------------------------------------------------------------
  // Counting lemmas about honest feedback

  /** The first copies of `c` that are not green take the yellow marks, as
      many as the target has unmatched copies. */
  lemma {:induction false} YellowsAreCapped(guess: string, target: string, c: char, n: nat)
    requires n <= |guess| == |target|
    ensures Yellows(guess, target, c, n)
         == Min(NonGreen(guess, target, c, n), Unmatched(guess, target, c, |guess|))
  {
    if n > 0 {
      YellowsAreCapped(guess, target, c, n - 1);
    }
  }

  /** Every copy of `c` in the target is either matched by a green or left
      unmatched. */
  lemma {:induction false} TargetCount(guess: string, target: string, c: char, n: nat)
    requires n <= |guess| == |target|
    ensures multiset(target[..n])[c] == Greens(guess, target, c, n) + Unmatched(guess, target, c, n)
  {
    if n > 0 {
      TargetCount(guess, target, c, n - 1);
      assert target[..n] == target[..n - 1] + [target[n - 1]];
    }
  }

  /** The counter the filter builds from honest feedback holds one copy of
      `c` per green and per yellow mark of `c`. */
  lemma {:induction false} MembersOfScore(guess: string, target: string, c: char, n: nat)
    requires n <= |guess| == |target|
    ensures Members(guess, Score(guess, target), n)[c]
         == Greens(guess, target, c, n) + Yellows(guess, target, c, n)
  {
    if n > 0 {
      MembersOfScore(guess, target, c, n - 1);
    }
  }

  /** A non-green copy of `c` at `i < n` makes the non-green count positive. */
  lemma {:induction false} NonGreenPositive(guess: string, target: string, c: char, i: nat, n: nat)
    requires i < n <= |guess| == |target|
    requires guess[i] == c && target[i] != c
    ensures NonGreen(guess, target, c, n) >= 1
  {
    if n - 1 > i {
      NonGreenPositive(guess, target, c, i, n - 1);
    }
  }

  /** Honest feedback never asks for more copies of a letter than the target
      holds. */
  lemma MembersWithinTarget(guess: string, target: string)
    requires |guess| == |target|
    ensures Members(guess, Score(guess, target), |guess|) <= multiset(target)
  {
    var n := |guess|;
    forall c ensures Members(guess, Score(guess, target), n)[c] <= multiset(target)[c] {
      MembersOfScore(guess, target, c, n);
      YellowsAreCapped(guess, target, c, n);
      TargetCount(guess, target, c, n);
      assert target[..n] == target;
    }
  }

  // ---------------------------------------------------------------------
  // The missing-letter rule as written, and as intended

  /** The game's answer to "geese" when the target is "those". */
  lemma ScoreGeeseThose()
    ensures Score("geese", "those") == "...gg"
  {
    assert Unmatched("geese", "those", 'g', 5) == 0;
    assert Unmatched("geese", "those", 'e', 5) == 0;
    var v := Score("geese", "those");
    assert v[0] == '.' && v[1] == '.' && v[2] == '.' && v[3] == 'g' && v[4] == 'g';
  }

  /** The filter as written removes the target: against "those", the guess
      "geese" scores "...gg"; the '.' copies of 'e' at positions 1 and 2
      come before its `g` at position 4, so 'e' lands in `missing` although
      the counter also holds it. */
  lemma WrittenFilterDropsTarget()
    ensures Score("geese", "those") == "...gg"
    ensures 'e' in Encode("geese", "...gg").missing
    ensures 'e' in Encode("geese", "...gg").members
    ensures WellShaped(Encode("geese", "...gg"), 5)
    ensures Rejected("those", Encode("geese", "...gg"))
  {
    ScoreGeeseThose();
    var g, v := "geese", "...gg";
    var k := Encode(g, v);
    assert g[1] == 'e' && v[1] == '.' && v[0] == '.';
    assert !MarkedBefore(g, v, 'e', 1);
    MissingExactly(g, v, 5, 'e');
    assert 'e' in k.missing;
    assert g[4] == 'e' && v[4] == 'g';
    assert Members(g, v, 5) == Members(g, v, 4) + multiset{'e'};
    EncodeWellShaped(g, v, 5);
    assert "those"[4] == 'e';
  }

  /** The intended rule: a '.' letter is missing only when the guess marks
      it `g` or `y` nowhere. */
  function CorrectedMissing(guess: string, verdict: string): (r: set<char>)
    ensures forall c :: c in r ==> c !in Members(guess, verdict, ZipLen(guess, verdict))
  {
    var n := ZipLen(guess, verdict);
    set i | 0 <= i < n && verdict[i] == '.' && guess[i] !in Members(guess, verdict, n) :: guess[i]
  }

  /** The encoding with the intended missing-letter rule; the counter and
      `pos_info` are those of the source. */
  function CorrectedEncode(guess: string, verdict: string): Constraints
  {
    var n := ZipLen(guess, verdict);
    Constraints(CorrectedMissing(guess, verdict), Members(guess, verdict, n), PosInfo(guess, verdict, n))
  }

  /** The correction only drops letters from `missing`: every word the
      written filter keeps, the corrected one keeps too. */
  lemma CorrectedMissingWithinWritten(guess: string, verdict: string)
    requires IsLowercase(guess)
    ensures CorrectedMissing(guess, verdict) <= Encode(guess, verdict).missing
  {
    var n := ZipLen(guess, verdict);
    forall c | c in CorrectedMissing(guess, verdict) ensures c in Missing(guess, verdict, n) {
      var i :| 0 <= i < n && verdict[i] == '.' && guess[i] == c && c !in Members(guess, verdict, n);
      MembersCount(guess, verdict, n, c);
      assert MarkIndices(guess, verdict, c, n) == {};
      forall j | 0 <= j < i && IsMarked(verdict[j]) ensures guess[j] != c {
        assert j !in MarkIndices(guess, verdict, c, n);
      }
      assert FirstAbsent(guess, verdict, c, i);
      MissingExactly(guess, verdict, n, c);
    }
  }

  /** Under honest feedback, a letter the corrected rule calls missing does
      not occur in the target. */
  lemma CorrectedMissingNotInTarget(guess: string, target: string, c: char)
    requires |guess| == |target|
    requires c in CorrectedMissing(guess, Score(guess, target))
    ensures c !in target
  {
    var v := Score(guess, target);
    var n := |guess|;
    var i :| 0 <= i < n && v[i] == '.' && guess[i] == c && c !in Members(guess, v, n);
    MembersOfScore(guess, target, c, n);
    YellowsAreCapped(guess, target, c, n);
    NonGreenPositive(guess, target, c, i, n);
    TargetCount(guess, target, c, n);
    assert target[..n] == target;
  }

  /** Under honest feedback, the target breaks no `pos_info` entry: a `y`
      position holds another letter, a `g` position the guessed one. */
  lemma TargetKeepsPositions(guess: string, target: string, idx: nat)
    requires |guess| == |target| && IsLowercase(guess)
    requires idx < |guess| && ScoreAt(guess, target, idx) != '.'
    ensures Shaped(PosInfo(guess, Score(guess, target), |guess|)[idx])
    ensures !Violates(target, idx, PosInfo(guess, Score(guess, target), |guess|)[idx])
  {
  }

  /** With the intended rule, the target survives honest feedback on any
      guess: no word consistent with the game's answer is ever removed. */
  lemma CorrectedFilterKeepsTarget(guess: string, target: string)
    requires |guess| == |target| && IsLowercase(guess)
    ensures WellShaped(CorrectedEncode(guess, Score(guess, target)), |target|)
    ensures !Rejected(target, CorrectedEncode(guess, Score(guess, target)))
  {
    var v := Score(guess, target);
    var k := CorrectedEncode(guess, v);
    EncodeWellShaped(guess, v, |guess|);
    forall c | c in target ensures c !in k.missing {
      if c in k.missing {
        CorrectedMissingNotInTarget(guess, target, c);
        assert false;
      }
    }
    forall idx | idx in k.posInfo ensures !Violates(target, idx, k.posInfo[idx]) {
      TargetKeepsPositions(guess, target, idx);
    }
    MembersWithinTarget(guess, target);
    forall m | m in k.members ensures multiset(target)[m] >= k.members[m] {
    }
  }
}
