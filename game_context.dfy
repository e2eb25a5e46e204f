/** The game-state reducer of the current front end: one `GameState`, ten
    actions, and a best score that survives resets. */
module GameContext {
  import opened Optional
  import opened GameTypes
  import opened RevealGrid

  /** How many fast (12-cell) and slow (8-cell) auto-reveal ticks have run. */
  datatype AutoRevealCount = AutoRevealCount(threePixel: nat, twoPixel: nat)

  datatype GameState = GameState(
    currentImage: Option<PixelImage>,
    revealedPixels: seq<array<bool>>,
    gameStatus: GameStatus,
    score: nat,
    bestScore: nat,
    hintsUsed: nat,
    timeElapsed: int,
    guesses: seq<string>,
    currentGuess: string,
    revealProgress: real,
    selectedCategory: string,
    autoRevealCount: AutoRevealCount)

  /** The ten action types, plus `Unrecognized` for any other `type`, which
      the reducer's `default` branch receives. */
  datatype Action =
    | StartGame(image: PixelImage, category: string)
    | RevealPixel(row: int, col: int)
    | SubmitGuess(guess: string)
    | UseHint
    | UpdateTime(time: int)
    | CompleteGame(success: bool)
    | ResetGame
    | SetCategory(category: string)
    | UpdateRevealProgress(progress: real)
    | AutoRevealPixels
    | Unrecognized(kind: string)

  const InitialState: GameState := GameState(
    None, [], Menu, 0, 0, 0, 0, [], "", 0.0, "animals", AutoRevealCount(0, 0))

  // ---------------------------------------------------------------- invariants

  /** The grid fits the image: no rows without an image, otherwise `gridSize`
      distinct rows of `gridSize` cells. */
  predicate Wf(s: GameState) {
    match s.currentImage
    case None => s.revealedPixels == []
    case Some(img) => IsGrid(s.revealedPixels, img.gridSize)
  }

  /** `revealProgress` is the percentage of revealed cells. */
  predicate ProgressInSync(s: GameState)
    reads s.revealedPixels
  {
    s.revealProgress == FillPercent(Count(Snapshot(s.revealedPixels)), TotalPixels(s.currentImage))
  }

  /** In a well-formed state the progress is a percentage. */
  lemma ProgressInRange(s: GameState)
    requires Wf(s) && ProgressInSync(s)
    ensures 0.0 <= s.revealProgress <= 100.0
  {
    var g := Snapshot(s.revealedPixels);
    if s.currentImage.Some? {
      var n := s.currentImage.value.gridSize;
      CountBound(g, n);
    }
  }

  // ---------------------------------------------------------------- scoring

  /** `Math.max(0, Math.floor((60000 - timeElapsed) / 1000))`: the whole
      seconds left of the first minute. */
  function TimeBonus(timeElapsed: int): (b: nat)
    ensures b * 1000 <= Max(0, 60000 - timeElapsed) < (b + 1) * 1000
  {
    var q := (60000 - timeElapsed) / 1000;
    if q < 0 then 0 else q
  }

  /** The score COMPLETE_GAME records: 0 on failure; on success the base for
      the difficulty plus the time bonus minus 10 per hint, but never below 10. */
  function FinalScore(image: Option<PixelImage>, timeElapsed: int, hintsUsed: nat, success: bool): (r: nat)
    ensures !success ==> r == 0
    ensures success ==> r >= 10
    ensures success && r > 10 ==> r == BaseScore(image) + TimeBonus(timeElapsed) - 10 * hintsUsed
    ensures success ==> r >= BaseScore(image) + TimeBonus(timeElapsed) - 10 * hintsUsed
  {
    if success then Max(10, BaseScore(image) + TimeBonus(timeElapsed) - 10 * hintsUsed) else 0
  }

  lemma {:induction false} TimeBonusAntitone(t1: int, t2: int)
    requires t1 <= t2
    ensures TimeBonus(t2) <= TimeBonus(t1)
  {
  }

  /** Finishing sooner or with fewer hints never scores less. */
  lemma FinalScoreMonotone(image: Option<PixelImage>, t1: int, t2: int, h1: nat, h2: nat)
    requires t1 <= t2 && h1 <= h2
    ensures FinalScore(image, t1, h1, true) >= FinalScore(image, t2, h2, true)
  {
    TimeBonusAntitone(t1, t2);
  }

  /** With a non-negative clock a win scores at most the base plus 60. */
  lemma FinalScoreAtMost(image: Option<PixelImage>, t: int, h: nat)
    requires t >= 0
    ensures FinalScore(image, t, h, true) <= BaseScore(image) + 60
  {
    assert TimeBonus(t) * 1000 < 61000;
  }

  /** A hard image solved at once scores 160, and with five hints 110. */
  lemma FinalScoreExamples(image: PixelImage)
    requires image.difficulty == Hard
    ensures FinalScore(Some(image), 0, 0, true) == 160
    ensures FinalScore(Some(image), 0, 5, true) == 110
  {
  }

  // ---------------------------------------------------------------- the actions that leave the grid alone

  /** SUBMIT_GUESS: the guess goes to the end of the history, earlier
      guesses keep their order, the input is cleared, and nothing else changes. */
  function SubmitGuessStep(s: GameState, guess: string): (t: GameState)
    ensures |t.guesses| == |s.guesses| + 1
    ensures t.guesses[..|s.guesses|] == s.guesses && t.guesses[|s.guesses|] == guess
    ensures t.currentGuess == ""
    ensures t.(guesses := s.guesses, currentGuess := s.currentGuess) == s
  {
    s.(guesses := s.guesses + [guess], currentGuess := "")
  }

  /** USE_HINT: one more hint, ten points off the score but not below zero,
      and nothing else changes. The reducer sets no cap on the hint count. */
  function UseHintStep(s: GameState): (t: GameState)
    ensures t.hintsUsed == s.hintsUsed + 1
    ensures t.score <= s.score && (s.score >= 10 ==> t.score == s.score - 10)
    ensures s.score < 10 ==> t.score == 0
    ensures t.(hintsUsed := s.hintsUsed, score := s.score) == s
  {
    s.(hintsUsed := s.hintsUsed + 1, score := Max(0, s.score - 10))
  }

  /** UPDATE_TIME: only the clock changes. */
  function UpdateTimeStep(s: GameState, time: int): (t: GameState)
    ensures t.timeElapsed == time && t.(timeElapsed := s.timeElapsed) == s
  {
    s.(timeElapsed := time)
  }

  /** COMPLETE_GAME: the round ends completed or failed with the final score,
      and the best score becomes the larger of the old best and that score. */
  function CompleteGameStep(s: GameState, success: bool): (t: GameState)
    ensures t.gameStatus == (if success then Completed else Failed)
    ensures t.score == FinalScore(s.currentImage, s.timeElapsed, s.hintsUsed, success)
    ensures t.bestScore >= s.bestScore && t.bestScore >= t.score
    ensures t.bestScore == s.bestScore || t.bestScore == t.score
    ensures t.(gameStatus := s.gameStatus, score := s.score, bestScore := s.bestScore) == s
  {
    var finalScore := FinalScore(s.currentImage, s.timeElapsed, s.hintsUsed, success);
    s.(gameStatus := if success then Completed else Failed,
       score := finalScore,
       bestScore := Max(s.bestScore, finalScore))
  }

  /** RESET_GAME: back to the initial state in every field but the best score. */
  function ResetGameStep(s: GameState): (t: GameState)
    ensures t.bestScore == s.bestScore
    ensures t.(bestScore := InitialState.bestScore) == InitialState
  {
    InitialState.(bestScore := s.bestScore)
  }

  /** SET_CATEGORY: only the category changes. */
  function SetCategoryStep(s: GameState, category: string): (t: GameState)
    ensures t.selectedCategory == category && t.(selectedCategory := s.selectedCategory) == s
  {
    s.(selectedCategory := category)
  }

  /** UPDATE_REVEAL_PROGRESS: only the progress changes, to whatever the
      payload says. */
  function UpdateRevealProgressStep(s: GameState, progress: real): (t: GameState)
    ensures t.revealProgress == progress && t.(revealProgress := s.revealProgress) == s
  {
    s.(revealProgress := progress)
  }

  predicate TouchesGrid(a: Action) {
    a.StartGame? || a.RevealPixel? || a.AutoRevealPixels?
  }

  /** The reducer on the seven actions that neither allocate nor write rows;
      an unrecognized action returns the state itself. */
  function Apply(s: GameState, a: Action): (t: GameState)
    requires !TouchesGrid(a)
    ensures a.Unrecognized? ==> t == s
    ensures t.revealedPixels == s.revealedPixels || t.revealedPixels == []
  {
    match a
    case SubmitGuess(g) => SubmitGuessStep(s, g)
    case UseHint => UseHintStep(s)
    case UpdateTime(time) => UpdateTimeStep(s, time)
    case CompleteGame(success) => CompleteGameStep(s, success)
    case ResetGame => ResetGameStep(s)
    case SetCategory(c) => SetCategoryStep(s, c)
    case UpdateRevealProgress(p) => UpdateRevealProgressStep(s, p)
    case Unrecognized(_) => s
  }

  /** None of these actions lowers the best score, breaks the grid, or (apart
      from UPDATE_REVEAL_PROGRESS) moves the progress away from the fill ratio. */
  lemma ApplyKeepsInvariants(s: GameState, a: Action)
    requires !TouchesGrid(a)
    ensures Apply(s, a).bestScore >= s.bestScore
    ensures Wf(s) ==> Wf(Apply(s, a))
    ensures ProgressInSync(s) && !a.UpdateRevealProgress? ==> ProgressInSync(Apply(s, a))
  {
    if a.ResetGame? {
      assert Snapshot([]) == [];
    }
  }

  /** The progress field can be driven away from the fill ratio: from the
      initial state, UPDATE_REVEAL_PROGRESS(50) leaves it at 50 with nothing
      revealed. */
  lemma UpdateRevealProgressDesyncs()
    ensures ProgressInSync(InitialState)
    ensures !ProgressInSync(UpdateRevealProgressStep(InitialState, 50.0))
  {
    assert Snapshot([]) == [];
  }

  /** The initial state is the menu with no image, no grid, nothing scored
      and the `animals` category, and it satisfies both invariants. */
  lemma InitialStateValid()
    ensures InitialState.gameStatus == Menu && InitialState.currentImage.None?
    ensures InitialState.score == 0 && InitialState.bestScore == 0 && InitialState.hintsUsed == 0
    ensures InitialState.selectedCategory == "animals" && InitialState.autoRevealCount == AutoRevealCount(0, 0)
    ensures Wf(InitialState) && ProgressInSync(InitialState)
  {
    assert Snapshot([]) == [];
  }

  lemma ResetIsIdempotent(s: GameState)
    ensures ResetGameStep(ResetGameStep(s)) == ResetGameStep(s)
  {
  }

  // ---------------------------------------------------------------- auto-reveal schedule

  /** `threePixel < 16 ? 12 : 8`. */
  function BatchSize(c: AutoRevealCount): (k: nat)
    ensures k == 12 <==> c.threePixel < 16
    ensures k == 8 <==> c.threePixel >= 16
  {
    if c.threePixel < 16 then 12 else 8
  }

  /** Exactly one counter goes up by one: `threePixel` for a 12-cell tick,
      `twoPixel` for an 8-cell tick. */
  function NextCounts(c: AutoRevealCount): (d: AutoRevealCount)
    ensures BatchSize(c) == 12 ==> d == c.(threePixel := c.threePixel + 1)
    ensures BatchSize(c) == 8 ==> d == c.(twoPixel := c.twoPixel + 1)
  {
    if BatchSize(c) == 12 then c.(threePixel := c.threePixel + 1)
    else c.(twoPixel := c.twoPixel + 1)
  }

  /** The counters after `k` ticks from zero. */
  function CountsAfter(k: nat): AutoRevealCount {
    if k == 0 then AutoRevealCount(0, 0) else NextCounts(CountsAfter(k - 1))
  }

  /** After `k` ticks from a fresh round, the first 16 were fast and the rest
      slow, so the ticks together asked for 12 * min(k, 16) + 8 * (k - 16) cells. */
  lemma {:induction false} CountsAfterTicks(k: nat)
    ensures CountsAfter(k) == AutoRevealCount(Min(k, 16), Max(0, k - 16))
  {
    if k > 0 {
      CountsAfterTicks(k - 1);
      var c := CountsAfter(k - 1);
      if k - 1 < 16 {
        assert c == AutoRevealCount(k - 1, 0) && BatchSize(c) == 12;
      } else {
        assert c == AutoRevealCount(16, k - 17) && BatchSize(c) == 8;
      }
    }
  }

  // ---------------------------------------------------------------- the actions that touch the grid

  /** START_GAME: a new round on `image` with a fresh all-hidden grid; every
      per-round field is zeroed and the best score is kept. */
  method StartGameStep(s: GameState, image: PixelImage, category: string) returns (t: GameState)
    ensures t.currentImage == Some(image) && t.selectedCategory == category
    ensures t.gameStatus == Playing
    ensures Snapshot(t.revealedPixels) == AllFalse(image.gridSize)
    ensures forall i :: 0 <= i < |t.revealedPixels| ==> fresh(t.revealedPixels[i])
    ensures t.score == 0 && t.hintsUsed == 0 && t.timeElapsed == 0 && t.revealProgress == 0.0
    ensures t.guesses == [] && t.currentGuess == ""
    ensures t.autoRevealCount == AutoRevealCount(0, 0)
    ensures t.bestScore == s.bestScore
    ensures Wf(t) && ProgressInSync(t)
  {
    var rows := NewGrid(image.gridSize);
    t := s.(currentImage := Some(image),
            selectedCategory := category,
            gameStatus := Playing,
            revealedPixels := rows,
            score := 0,
            hintsUsed := 0,
            timeElapsed := 0,
            guesses := [],
            currentGuess := "",
            revealProgress := 0.0,
            autoRevealCount := AutoRevealCount(0, 0));
    NothingRevealed(image.gridSize);
    assert FillPercent(0, TotalPixels(t.currentImage)) == 0.0;
  }

  /** REVEAL_PIXEL(row, col): exactly that cell becomes revealed and the
      progress is recomputed. The new state holds the same rows as the old
      one, so the old state sees the write as well. */
  method RevealPixelStep(s: GameState, row: int, col: int) returns (t: GameState)
    requires Wf(s)
    requires 0 <= row < |s.revealedPixels| && 0 <= col < |s.revealedPixels|
    modifies s.revealedPixels[row]
    ensures t.revealedPixels == s.revealedPixels
    ensures Snapshot(t.revealedPixels)
         == old(Snapshot(s.revealedPixels))[row := old(s.revealedPixels[row][..])[col := true]]
    ensures Count(Snapshot(t.revealedPixels))
         == old(Count(Snapshot(s.revealedPixels))) + (if old(s.revealedPixels[row][col]) then 0 else 1)
    ensures t.(revealProgress := s.revealProgress) == s
    ensures Wf(t) && ProgressInSync(t)
  {
    var rows := s.revealedPixels;
    ghost var before := Snapshot(rows);
    RevealCell(rows, row, col);
    CountSetCell(before, row, col);
    var newProgress := FillPercent(Count(Snapshot(rows)), TotalPixels(s.currentImage));
    t := s.(revealedPixels := rows, revealProgress := newProgress);
  }

  /** Every cell revealed in `before` is still revealed in `after`, and both
      are `n` by `n`. */
  ghost predicate OnlyReveals(before: seq<seq<bool>>, after: seq<seq<bool>>, n: nat) {
    && IsSquare(before, n) && IsSquare(after, n)
    && forall r, c :: 0 <= r < n && 0 <= c < n && before[r][c] ==> after[r][c]
  }

  /** What the auto-reveal loop keeps while it picks: the candidate list has
      no repeats and names only hidden cells, and no cell revealed before the
      tick has been hidden. */
  ghost predicate PickInvariant(before: seq<seq<bool>>, cur: seq<seq<bool>>, hidden: seq<(nat, nat)>, n: nat) {
    && Distinct(hidden)
    && (forall p :: p in hidden ==> p.0 < n && p.1 < n)
    && OnlyReveals(before, cur, n)
    && (forall p :: p in hidden ==> !cur[p.0][p.1])
  }

  /** Taking candidate `k` out of the list and revealing its cell reveals a
      hidden cell and keeps the loop's invariant. */
  lemma PickKeepsInvariant(before: seq<seq<bool>>, cur: seq<seq<bool>>, hidden: seq<(nat, nat)>, k: nat, n: nat)
    requires PickInvariant(before, cur, hidden, n) && k < |hidden|
    ensures var (r, c) := hidden[k];
      && PickInvariant(before, cur[r := cur[r][c := true]], hidden[..k] + hidden[k + 1..], n)
      && Count(cur[r := cur[r][c := true]]) == Count(cur) + 1
  {
    var (r, c) := hidden[k];
    var rest := hidden[..k] + hidden[k + 1..];
    var cur' := cur[r := cur[r][c := true]];
    CountSetCell(cur, r, c);
    forall p | p in rest ensures p != (r, c) && p in hidden {
      var j :| 0 <= j < |rest| && rest[j] == p;
      if j < k {
        assert rest[j] == hidden[j];
      } else {
        assert rest[j] == hidden[j + 1];
      }
    }
    assert Distinct(rest) by {
      forall i, j | 0 <= i < j < |rest| ensures rest[i] != rest[j] {
        var i', j' := (if i < k then i else i + 1), (if j < k then j else j + 1);
        assert rest[i] == hidden[i'] && rest[j] == hidden[j'];
      }
    }
  }

  /** The batch loop: up to `batch` hidden cells of the `n` by `n` grid,
      picked at random one after another, are revealed, and nothing else. */
  method RevealRandomCells(rows: seq<array<bool>>, n: nat, batch: nat)
    requires IsGrid(rows, n)
    modifies rows
    ensures OnlyReveals(old(Snapshot(rows)), Snapshot(rows), n)
    ensures Count(Snapshot(rows)) == old(Count(Snapshot(rows))) + Min(batch, n * n - old(Count(Snapshot(rows))))
  {
    ghost var before := Snapshot(rows);
    SnapshotOfGrid(rows, n);
    var hidden := CollectHidden(rows, n);
    GapsSpec(before, n, n);
    GapsAndCount(before, n);
    var quota := Min(batch, |hidden|);
    ghost var cur := before;
    var i := 0;
    while i < quota
      invariant 0 <= i <= quota
      invariant cur == Snapshot(rows)
      invariant |hidden| == n * n - Count(before) - i
      invariant PickInvariant(before, cur, hidden, n)
      invariant Count(cur) == Count(before) + i
    {
      var k :| 0 <= k < |hidden|;
      var (r, c) := hidden[k];
      PickKeepsInvariant(before, cur, hidden, k, n);
      hidden := hidden[..k] + hidden[k + 1..];
      RevealCell(rows, r, c);
      cur := cur[r := cur[r][c := true]];
      i := i + 1;
    }
  }

  /** AUTO_REVEAL_PIXELS: with no image nothing happens. Otherwise
      min(batch, hidden) hidden cells, picked at random, are revealed; no
      revealed cell is hidden again; exactly one counter goes up (even when
      fewer cells remained than the batch); and the progress is recomputed. */
  method AutoRevealPixelsStep(s: GameState) returns (t: GameState)
    requires Wf(s)
    requires s.currentImage.Some? ==> s.currentImage.value.gridSize > 0
    modifies s.revealedPixels
    ensures s.currentImage.None? ==> t == s
    ensures s.currentImage.Some? ==>
      var n := s.currentImage.value.gridSize;
      var before := old(Snapshot(s.revealedPixels));
      var after := Snapshot(t.revealedPixels);
      && t.revealedPixels == s.revealedPixels
      && OnlyReveals(before, after, n)
      && Count(after) == Count(before) + Min(BatchSize(s.autoRevealCount), n * n - Count(before))
      && t.autoRevealCount == NextCounts(s.autoRevealCount)
      && t.(revealProgress := s.revealProgress, autoRevealCount := s.autoRevealCount) == s
    ensures Wf(t)
    ensures s.currentImage.Some? ==> ProgressInSync(t)
  {
    if s.currentImage.None? {
      return s;
    }
    var n := s.currentImage.value.gridSize;
    var rows := s.revealedPixels;
    RevealRandomCells(rows, n, BatchSize(s.autoRevealCount));
    var newProgress := FillPercent(Count(Snapshot(rows)), TotalPixels(s.currentImage));
    t := s.(revealedPixels := rows, revealProgress := newProgress, autoRevealCount := NextCounts(s.autoRevealCount));
  }

  // ---------------------------------------------------------------- the reducer

  /** `gameReducer`: the next state for one action. Row and column must lie
      inside the grid, which the reducer itself never checks. */
  method GameReducer(s: GameState, a: Action) returns (t: GameState)
    requires Wf(s)
    requires a.RevealPixel? ==> 0 <= a.row < |s.revealedPixels| && 0 <= a.col < |s.revealedPixels|
    requires a.AutoRevealPixels? && s.currentImage.Some? ==> s.currentImage.value.gridSize > 0
    modifies s.revealedPixels
    ensures Wf(t)
    ensures t.bestScore >= s.bestScore
    ensures !TouchesGrid(a) ==> t == Apply(s, a)
    ensures a.StartGame? ==> t.gameStatus == Playing && Snapshot(t.revealedPixels) == AllFalse(a.image.gridSize)
    ensures a.RevealPixel? || a.AutoRevealPixels? ==> t.revealedPixels == s.revealedPixels
    ensures a.RevealPixel? ==>
      Snapshot(t.revealedPixels) == old(Snapshot(s.revealedPixels))[a.row := old(s.revealedPixels[a.row][..])[a.col := true]]
    ensures a.AutoRevealPixels? && s.currentImage.Some? ==>
      var n := s.currentImage.value.gridSize;
      var before := old(Snapshot(s.revealedPixels));
      var after := Snapshot(t.revealedPixels);
      && OnlyReveals(before, after, n)
      && Count(after) == Count(before) + Min(BatchSize(s.autoRevealCount), n * n - Count(before))
      && t.autoRevealCount == NextCounts(s.autoRevealCount)
    ensures !TouchesGrid(a) ==> Snapshot(t.revealedPixels) == old(Snapshot(t.revealedPixels))
    ensures a.StartGame? || a.RevealPixel? || a.ResetGame? ==> ProgressInSync(t)
    ensures a.AutoRevealPixels? && s.currentImage.Some? ==> ProgressInSync(t)
    ensures old(ProgressInSync(s)) && !a.UpdateRevealProgress? ==> ProgressInSync(t)
  {
    match a {
      case StartGame(image, category) =>
        t := StartGameStep(s, image, category);
      case RevealPixel(row, col) =>
        t := RevealPixelStep(s, row, col);
      case AutoRevealPixels =>
        t := AutoRevealPixelsStep(s);
      case _ =>
        t := Apply(s, a);
        ApplyKeepsInvariants(s, a);
    }
  }
}
