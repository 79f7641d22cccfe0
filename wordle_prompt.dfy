/** The acceptance checks of `Wordle.prompt` (wordle.py:88-116) as pure
    classifications of one input line. The guess loop and the verdict loop
    re-prompt until the reply is `Accepted`; the other replies stand for the
    message the source prints before asking again. */
module WordlePrompt {
  import opened Lowercase

  datatype GuessReply = ListOptions | GuessHelp | GuessWrongLength | NotLowercase | GuessAccepted

  datatype VerdictReply = Acknowledge | VerdictHelp | VerdictWrongLength | BadSymbol | VerdictAccepted

  /** A verdict string built only from `g`, `y` and `.`. */
  predicate IsVerdictString(s: string) {
    forall i :: 0 <= i < |s| ==> s[i] in "gy."
  }

  /** The characters of `s` outside `gy.`, i.e. `set(v) - set("gy.")`. */
  function NonVerdictSymbols(s: string): (r: set<char>)
    ensures r == {} <==> IsVerdictString(s)
  {
    var r := set c | c in s && c !in "gy.";
    assert !IsVerdictString(s) ==> exists i :: 0 <= i < |s| && s[i] in r;
    r
  }

  /** One pass of the guess loop: "?" lists the options, "??" prints help,
      then the length check, then the lowercase check. A guess is accepted
      exactly when it has the session's length and only letters `a`..`z`. */
  function ClassifyGuess(input: string, wordLen: int): (r: GuessReply)
    ensures r == GuessAccepted <==> |input| == wordLen && IsLowercase(input)
    ensures r == GuessWrongLength ==> |input| != wordLen
    ensures r == NotLowercase ==> |input| == wordLen && !IsLowercase(input)
  {
    assert !IsLowercaseLetter("?"[0]) && !IsLowercaseLetter("??"[0]);
    if input == "?" then ListOptions
    else if input == "??" then GuessHelp
    else if |input| != wordLen then GuessWrongLength
    else if |NonLowercase(input)| > 0 then NotLowercase
    else GuessAccepted
  }

  /** One pass of the verdict loop. The second test of the source compares
      the already accepted `guess`, not the input, with "??"; since an
      accepted guess is lowercase, that branch never fires. A verdict is
      accepted exactly when it has the session's length and only `g`, `y`,
      `.`. */
  function ClassifyVerdict(input: string, guess: string, wordLen: int): (r: VerdictReply)
    ensures IsLowercase(guess) ==>
              (r == VerdictAccepted <==> |input| == wordLen && IsVerdictString(input))
    ensures IsLowercase(guess) ==> r != VerdictHelp
    ensures r == VerdictWrongLength ==> |input| != wordLen
    ensures r == BadSymbol ==> |input| == wordLen && !IsVerdictString(input)
  {
    assert !IsLowercaseLetter("??"[0]) && "?"[0] !in "gy.";
    if input == "?" then Acknowledge
    else if guess == "??" then VerdictHelp
    else if |input| != wordLen then VerdictWrongLength
    else if |NonVerdictSymbols(input)| > 0 then BadSymbol
    else VerdictAccepted
  }
}
