/** The guess box: judging a submitted guess, handing out hints, and the
    panel of previous guesses. Each handler is modelled by the action it
    dispatches and what it does to the local input text. */
module GuessInput {
  import opened Optional
  import opened Text
  import opened GameTypes
  import opened GameContext

  // ---------------------------------------------------------------- submitting a guess

  /** The judge: the trimmed guess and the answer agree once both are
      lower-cased. The answer itself is not trimmed. */
  predicate IsCorrect(guess: string, answer: string)
    ensures IsCorrect(guess, answer) ==> |Trim(guess)| == |answer|
  {
    ToLower(Trim(guess)) == ToLower(answer)
  }

  /** What a submission leaves behind: the action dispatched, if any, and
      the text left in the input box. */
  datatype Submission = Submission(dispatched: Option<Action>, inputAfter: string)

  /** `handleSubmitGuess`: nothing happens for a blank guess or when there is
      no image; otherwise exactly one action goes out, COMPLETE_GAME(true)
      for a correct guess and SUBMIT_GUESS with the trimmed text (its case
      kept) for a wrong one, and the input is cleared. */
  function HandleSubmitGuess(currentGuess: string, image: Option<PixelImage>): (o: Submission)
    ensures o.dispatched.None? <==> AllWhitespace(currentGuess) || image.None?
    ensures o.dispatched.None? ==> o.inputAfter == currentGuess
    ensures o.dispatched.Some? ==> o.inputAfter == ""
    ensures o.dispatched == Some(CompleteGame(true))
        <==> image.Some? && !AllWhitespace(currentGuess) && IsCorrect(currentGuess, image.value.name)
    ensures o.dispatched.Some? && !IsCorrect(currentGuess, image.value.name)
        ==> o.dispatched == Some(SubmitGuess(Trim(currentGuess)))
  {
    if Trim(currentGuess) == [] || image.None? then Submission(None, currentGuess)
    else if IsCorrect(currentGuess, image.value.name) then Submission(Some(CompleteGame(true)), "")
    else Submission(Some(SubmitGuess(Trim(currentGuess))), "")
  }

  /** Trimming a re-cased guess trims the same characters. */
  lemma LowerTrimRecased(guess: string, recased: string)
    requires |recased| == |guess|
    requires forall i :: 0 <= i < |guess| ==> ToLowerChar(recased[i]) == ToLowerChar(guess[i])
    requires SameSpacing(guess, recased)
    ensures ToLower(Trim(recased)) == ToLower(Trim(guess))
  {
    TrimSameSpacing(guess, recased);
    TrimSlice(guess);
    TrimSlice(recased);
    LowerSlicesAgree(recased, guess, TrimFrom(guess), |Trim(guess)|);
  }

  /** Texts that lower-case alike do so on every slice. */
  lemma LowerSlicesAgree(x: string, y: string, k: nat, n: nat)
    requires |x| == |y| && k + n <= |x|
    requires forall i :: 0 <= i < |x| ==> ToLowerChar(x[i]) == ToLowerChar(y[i])
    ensures ToLower(x[k..k + n]) == ToLower(y[k..k + n])
  {
    var a, b := x[k..k + n], y[k..k + n];
    forall i | 0 <= i < n
      ensures ToLower(a)[i] == ToLower(b)[i]
    {
      assert a[i] == x[k + i] && b[i] == y[k + i];
    }
  }

  /** Case does not matter, on either side. */
  lemma JudgeIgnoresCase(guess: string, answer: string)
    ensures IsCorrect(ToUpper(guess), answer) <==> IsCorrect(guess, answer)
    ensures IsCorrect(ToLower(guess), answer) <==> IsCorrect(guess, answer)
    ensures IsCorrect(guess, ToUpper(answer)) <==> IsCorrect(guess, answer)
  {
    ToLowerForgetsCase(answer);
    ToLowerForgetsCase(guess);
    CaseKeepsSpacing(guess);
    LowerTrimRecased(guess, ToUpper(guess));
    LowerTrimRecased(guess, ToLower(guess));
  }

  /** The answer typed with any whitespace around it is accepted. */
  lemma PaddedAnswerIsCorrect(pre: string, answer: string, post: string, image: PixelImage)
    requires AllWhitespace(pre) && AllWhitespace(post)
    requires Trimmed(answer) && answer != [] && image.name == answer
    ensures HandleSubmitGuess(pre + answer + post, Some(image)).dispatched == Some(CompleteGame(true))
  {
    TrimPadded(pre, answer, post);
  }

  /** An answer that starts or ends with whitespace, or is empty, can never
      be guessed: a trimmed guess has no whitespace at its ends and a
      non-blank one is not empty. */
  lemma UntrimmedAnswerNeverGuessed(guess: string, image: PixelImage)
    requires !Trimmed(image.name) || image.name == []
    ensures HandleSubmitGuess(guess, Some(image)).dispatched != Some(CompleteGame(true))
  {
    var t := Trim(guess);
    if ToLower(t) == ToLower(image.name) {
      LowerAgreesTrimmed(t, image.name);
    }
  }

  /** Two texts that lower-case alike have the same length and the same
      whitespace at their ends. */
  lemma LowerAgreesTrimmed(t: string, n: string)
    requires ToLower(t) == ToLower(n)
    ensures |t| == |n| && (Trimmed(t) <==> Trimmed(n))
  {
    CaseKeepsSpacing(t);
    CaseKeepsSpacing(n);
    if t != [] {
      assert ToLower(t)[0] == ToLower(n)[0];
      assert ToLower(t)[|t| - 1] == ToLower(n)[|n| - 1];
    }
  }

  /** A wrong guess is recorded by the reducer as typed, less the
      surrounding whitespace, at the end of the list. */
  lemma WrongGuessRecorded(s: GameState, currentGuess: string)
    requires s.currentImage.Some? && !AllWhitespace(currentGuess)
    requires !IsCorrect(currentGuess, s.currentImage.value.name)
    ensures var a := HandleSubmitGuess(currentGuess, s.currentImage).dispatched.value;
            Apply(s, a).guesses == s.guesses + [Trim(currentGuess)]
  {
  }

  // ---------------------------------------------------------------- hints

  /** The three hints, in order: category, first letter upper-cased, length. */
  function Hints(image: PixelImage): (hs: seq<string>)
    requires image.name != []
    ensures |hs| == 3
  {
    [ "Category: " + image.category,
      "First letter: " + [ToUpperChar(image.name[0])],
      "Length: " + NatToString(|image.name|) + " letters" ]
  }

  /** What the hint button shows: nothing, a hint, or an exception (reading
      the first letter of an empty answer). */
  datatype Toast = Silent | Info(text: string) | Thrown

  datatype HintPress = HintPress(dispatched: Option<Action>, toast: Toast)

  /** `handleUseHint`: nothing without an image or once three hints are used;
      otherwise USE_HINT is dispatched first, then the hint at
      `min(hintsUsed, 2)`, counted before the dispatch, is shown. The hint
      list is built whole, so an empty answer throws after the dispatch. */
  function HandleUseHint(image: Option<PixelImage>, hintsUsed: nat): (p: HintPress)
    ensures p.dispatched.None? <==> image.None? || hintsUsed >= 3
    ensures p.dispatched.Some? ==> p.dispatched.value == UseHint
    ensures p.dispatched.None? ==> p.toast == Silent
    ensures p.dispatched.Some? && image.value.name == [] ==> p.toast == Thrown
    ensures p.dispatched.Some? && image.value.name != []
        ==> p.toast == Info(Hints(image.value)[Min(hintsUsed, 2)])
  {
    if image.None? || hintsUsed >= 3 then HintPress(None, Silent)
    else if image.value.name == [] then HintPress(Some(UseHint), Thrown)
    else HintPress(Some(UseHint), Info(Hints(image.value)[Min(hintsUsed, |Hints(image.value)| - 1)]))
  }

  /** Pressing the hint button and letting the reducer handle what it sends. */
  function PressHint(s: GameState): (t: GameState)
    ensures s.currentImage.Some? && s.hintsUsed < 3 ==> t == UseHintStep(s)
    ensures s.currentImage.None? || s.hintsUsed >= 3 ==> t == s
  {
    var p := HandleUseHint(s.currentImage, s.hintsUsed);
    if p.dispatched.Some? then Apply(s, p.dispatched.value) else s
  }

  function PressHintTimes(s: GameState, k: nat): GameState {
    if k == 0 then s else PressHint(PressHintTimes(s, k - 1))
  }

  /** The reducer has no cap, but through the button the hint count stops at
      three, each press below it costing one hint. */
  lemma {:induction false} HintButtonCaps(s: GameState, k: nat)
    requires s.currentImage.Some? && s.hintsUsed <= 3
    ensures PressHintTimes(s, k).hintsUsed == Min(3, s.hintsUsed + k)
    ensures PressHintTimes(s, k).currentImage == s.currentImage
  {
    if k > 0 {
      HintButtonCaps(s, k - 1);
    }
  }

  /** From a fresh round the three presses show the category, the first
      letter and the length, in that order. */
  lemma HintsInOrder(image: PixelImage)
    requires image.name != []
    ensures HandleUseHint(Some(image), 0).toast == Info("Category: " + image.category)
    ensures HandleUseHint(Some(image), 1).toast == Info("First letter: " + [ToUpperChar(image.name[0])])
    ensures HandleUseHint(Some(image), 2).toast == Info("Length: " + NatToString(|image.name|) + " letters")
    ensures HandleUseHint(Some(image), 3) == HintPress(None, Silent)
  {
  }

  // ---------------------------------------------------------------- previous guesses

  /** `guesses.slice(-5)`: the last five guesses, oldest first. */
  function RecentGuesses(guesses: seq<string>): (r: seq<string>)
    ensures |r| == Min(5, |guesses|)
    ensures r == guesses[|guesses| - |r|..]
  {
    if |guesses| <= 5 then guesses else guesses[|guesses| - 5..]
  }

  /** After a wrong guess the panel ends with it and drops its oldest entry
      once it already held five. */
  lemma RecentAfterGuess(guesses: seq<string>, guess: string)
    ensures RecentGuesses(guesses + [guess]) == RecentGuesses(RecentGuesses(guesses) + [guess])
    ensures RecentGuesses(guesses + [guess])[|RecentGuesses(guesses + [guess])| - 1] == guess
  {
    var g := guesses + [guess];
    var r := RecentGuesses(guesses);
    var r2 := r + [guess];
    assert r2 == g[|g| - |r2|..];
    assert RecentGuesses(r2) == r2[|r2| - Min(5, |r2|)..];
    assert g[|g| - Min(5, |g|)..] == r2[|r2| - Min(5, |r2|)..];
  }
}
