/** The earlier game-state reducer (nine actions, no best score): its time
    bonus is `60 - timeElapsed`, its score floor is 0 and RESET_GAME restores
    the initial state entirely. */
module LegacyGameContext {
  import opened Optional
  import opened GameTypes
  import opened RevealGrid

  datatype GameState = GameState(
    currentImage: Option<PixelImage>,
    revealedPixels: seq<array<bool>>,
    gameStatus: GameStatus,
    score: nat,
    hintsUsed: nat,
    timeElapsed: int,
    guesses: seq<string>,
    currentGuess: string,
    revealProgress: real,
    selectedCategory: string)

  /** The nine action types, plus `Unrecognized` for the `default` branch. */
  datatype Action =
    | StartGame(image: PixelImage, category: string)
    | RevealPixel(row: int, col: int)
    | SubmitGuess(guess: string)
    | UseHint
    | UpdateTime(time: int)
    | CompleteGame(success: bool)
    | ResetGame
    | SetCategory(category: string)
    | UpdateRevealProgress(progress: real)
    | Unrecognized(kind: string)

  const InitialState: GameState := GameState(None, [], Menu, 0, 0, 0, [], "", 0.0, "animals")

  /** The grid fits the image, as in the current reducer. */
  predicate Wf(s: GameState) {
    match s.currentImage
    case None => s.revealedPixels == []
    case Some(img) => IsGrid(s.revealedPixels, img.gridSize)
  }

  predicate ProgressInSync(s: GameState)
    reads s.revealedPixels
  {
    s.revealProgress == FillPercent(Count(Snapshot(s.revealedPixels)), TotalPixels(s.currentImage))
  }

  // ---------------------------------------------------------------- scoring

  /** `Math.max(0, 60 - timeElapsed)`: the bonus counts down one point per
      unit of `timeElapsed`, with no conversion from milliseconds. */
  function TimeBonus(timeElapsed: int): (b: nat)
    ensures b <= 60 || timeElapsed < 0
    ensures timeElapsed >= 60 <==> b == 0
    ensures timeElapsed < 60 ==> b + timeElapsed == 60
  {
    if 60 - timeElapsed < 0 then 0 else 60 - timeElapsed
  }

  /** 0 on failure; on success base plus bonus minus 10 per hint, floored at 0. */
  function FinalScore(image: Option<PixelImage>, timeElapsed: int, hintsUsed: nat, success: bool): (r: nat)
    ensures !success ==> r == 0
    ensures success && r > 0 ==> r == BaseScore(image) + TimeBonus(timeElapsed) - 10 * hintsUsed
    ensures success && r == 0 ==> BaseScore(image) + TimeBonus(timeElapsed) <= 10 * hintsUsed
  {
    if success then Max(0, BaseScore(image) + TimeBonus(timeElapsed) - 10 * hintsUsed) else 0
  }

  /** Unlike the current rule, a win can score 0: an easy image after the
      first minute with five hints. */
  lemma WinCanScoreZero(image: PixelImage)
    requires image.difficulty == Easy
    ensures FinalScore(Some(image), 60, 5, true) == 0
  {
  }

  // ---------------------------------------------------------------- the actions that leave the grid alone

  /** SUBMIT_GUESS: append the guess, clear the input, change nothing else. */
  function SubmitGuessStep(s: GameState, guess: string): (t: GameState)
    ensures |t.guesses| == |s.guesses| + 1
    ensures t.guesses[..|s.guesses|] == s.guesses && t.guesses[|s.guesses|] == guess
    ensures t.currentGuess == ""
    ensures t.(guesses := s.guesses, currentGuess := s.currentGuess) == s
  {
    s.(guesses := s.guesses + [guess], currentGuess := "")
  }

  /** USE_HINT: one more hint and ten points off, floored at zero. */
  function UseHintStep(s: GameState): (t: GameState)
    ensures t.hintsUsed == s.hintsUsed + 1
    ensures t.score <= s.score && (s.score >= 10 ==> t.score == s.score - 10)
    ensures s.score < 10 ==> t.score == 0
    ensures t.(hintsUsed := s.hintsUsed, score := s.score) == s
  {
    s.(hintsUsed := s.hintsUsed + 1, score := Max(0, s.score - 10))
  }

  /** COMPLETE_GAME: status completed or failed, and the final score. */
  function CompleteGameStep(s: GameState, success: bool): (t: GameState)
    ensures t.gameStatus == (if success then Completed else Failed)
    ensures t.score == FinalScore(s.currentImage, s.timeElapsed, s.hintsUsed, success)
    ensures !success ==> t.score == 0
    ensures t.(gameStatus := s.gameStatus, score := s.score) == s
  {
    s.(gameStatus := if success then Completed else Failed,
       score := if success then FinalScore(s.currentImage, s.timeElapsed, s.hintsUsed, true) else 0)
  }

  predicate TouchesGrid(a: Action) {
    a.StartGame? || a.RevealPixel?
  }

  /** The reducer on the actions that neither allocate nor write rows.
      RESET_GAME returns the initial state whatever the state was. */
  function Apply(s: GameState, a: Action): (t: GameState)
    requires !TouchesGrid(a)
    ensures a.ResetGame? ==> t == InitialState
    ensures a.UpdateTime? ==> t == s.(timeElapsed := a.time)
    ensures a.SetCategory? ==> t == s.(selectedCategory := a.category)
    ensures a.UpdateRevealProgress? ==> t == s.(revealProgress := a.progress)
    ensures a.Unrecognized? ==> t == s
  {
    match a
    case SubmitGuess(g) => SubmitGuessStep(s, g)
    case UseHint => UseHintStep(s)
    case UpdateTime(time) => s.(timeElapsed := time)
    case CompleteGame(success) => CompleteGameStep(s, success)
    case ResetGame => InitialState
    case SetCategory(c) => s.(selectedCategory := c)
    case UpdateRevealProgress(p) => s.(revealProgress := p)
    case Unrecognized(_) => s
  }

  /** The initial state is the menu with no image, no grid, nothing scored
      and the `animals` category, and it satisfies both invariants. */
  lemma InitialStateValid()
    ensures InitialState.gameStatus == Menu && InitialState.currentImage.None?
    ensures InitialState.score == 0 && InitialState.hintsUsed == 0 && InitialState.selectedCategory == "animals"
    ensures Wf(InitialState) && ProgressInSync(InitialState)
  {
    assert Snapshot([]) == [];
  }

  /** RESET_GAME keeps nothing: any two states reset to the same state. */
  lemma ResetForgetsEverything(s1: GameState, s2: GameState)
    ensures Apply(s1, ResetGame) == Apply(s2, ResetGame) == InitialState
  {
  }

  lemma ApplyKeepsInvariants(s: GameState, a: Action)
    requires !TouchesGrid(a)
    ensures Wf(s) ==> Wf(Apply(s, a))
    ensures ProgressInSync(s) && !a.UpdateRevealProgress? ==> ProgressInSync(Apply(s, a))
  {
    if a.ResetGame? {
      assert Snapshot([]) == [];
    }
  }

  // ---------------------------------------------------------------- the actions that touch the grid

  /** START_GAME: a new round on `image` with a fresh all-hidden grid and
      zero score, hints, time, progress and guesses. */
  method StartGameStep(s: GameState, image: PixelImage, category: string) returns (t: GameState)
    ensures t.currentImage == Some(image) && t.selectedCategory == category
    ensures t.gameStatus == Playing
    ensures Snapshot(t.revealedPixels) == AllFalse(image.gridSize)
    ensures forall i :: 0 <= i < |t.revealedPixels| ==> fresh(t.revealedPixels[i])
    ensures t.score == 0 && t.hintsUsed == 0 && t.timeElapsed == 0 && t.revealProgress == 0.0
    ensures t.guesses == [] && t.currentGuess == ""
    ensures Wf(t) && ProgressInSync(t)
  {
    var rows := NewGrid(image.gridSize);
    NothingRevealed(image.gridSize);
    t := GameState(Some(image), rows, Playing, 0, 0, 0, [], "", 0.0, category);
    assert FillPercent(0, TotalPixels(t.currentImage)) == 0.0;
  }

  /** REVEAL_PIXEL(row, col): exactly that cell becomes revealed, in the row
      the old state shares, and the progress is recomputed. */
  method RevealPixelStep(s: GameState, row: int, col: int) returns (t: GameState)
    requires Wf(s)
    requires 0 <= row < |s.revealedPixels| && 0 <= col < |s.revealedPixels|
    modifies s.revealedPixels[row]
    ensures t.revealedPixels == s.revealedPixels
    ensures Snapshot(t.revealedPixels)
         == old(Snapshot(s.revealedPixels))[row := old(s.revealedPixels[row][..])[col := true]]
    ensures Count(Snapshot(t.revealedPixels))
         == old(Count(Snapshot(s.revealedPixels))) + (if old(s.revealedPixels[row][col]) then 0 else 1)
    ensures t.(revealProgress := s.revealProgress) == s
    ensures Wf(t) && ProgressInSync(t)
  {
    var rows := s.revealedPixels;
    ghost var before := Snapshot(rows);
    RevealCell(rows, row, col);
    CountSetCell(before, row, col);
    var newProgress := FillPercent(Count(Snapshot(rows)), TotalPixels(s.currentImage));
    t := s.(revealedPixels := rows, revealProgress := newProgress);
  }

  /** `gameReducer` of the earlier version. */
  method GameReducer(s: GameState, a: Action) returns (t: GameState)
    requires Wf(s)
    requires a.RevealPixel? ==> 0 <= a.row < |s.revealedPixels| && 0 <= a.col < |s.revealedPixels|
    modifies s.revealedPixels
    ensures Wf(t)
    ensures !TouchesGrid(a) ==> t == Apply(s, a)
    ensures a.StartGame? ==> t.gameStatus == Playing && Snapshot(t.revealedPixels) == AllFalse(a.image.gridSize)
    ensures a.RevealPixel? ==> t.revealedPixels == s.revealedPixels
    ensures a.RevealPixel? ==>
      Snapshot(t.revealedPixels) == old(Snapshot(s.revealedPixels))[a.row := old(s.revealedPixels[a.row][..])[a.col := true]]
    ensures !TouchesGrid(a) ==> Snapshot(t.revealedPixels) == old(Snapshot(t.revealedPixels))
    ensures a.StartGame? || a.RevealPixel? || a.ResetGame? ==> ProgressInSync(t)
    ensures old(ProgressInSync(s)) && !a.UpdateRevealProgress? ==> ProgressInSync(t)
  {
    match a {
      case StartGame(image, category) =>
        t := StartGameStep(s, image, category);
      case RevealPixel(row, col) =>
        t := RevealPixelStep(s, row, col);
      case _ =>
        t := Apply(s, a);
        ApplyKeepsInvariants(s, a);
    }
  }
}
