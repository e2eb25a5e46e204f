# PixelGuess in Dafny

PixelGuess is a casual guessing game. A hidden picture sits behind a square grid
of cells. The cells are uncovered over time, and the player types guesses at the
picture's name against a two-minute clock. This project models the core of that
game and proves properties of the model.

- **The current game-state reducer** (`GameContext`). It has ten actions. The best
  score survives a reset. A success score is `max(10, base + seconds bonus - 10 per hint)`.
  AUTO_REVEAL_PIXELS uncovers 12 random hidden cells per tick for the first 16
  ticks and 8 per tick after that.
- **The earlier reducer** (`LegacyGameContext`). It has nine actions and a `60 - time`
  bonus, and a full reset.
- **The reveal grid** (`RevealGrid`). The reveal grid is a list of shared, mutable
  rows (`seq<array<bool>>`). Copying a state copies the list but not the rows, so
  writing one cell is visible through every state that holds the list. The module
  also counts revealed cells, computes the fill percentage and lists the hidden cells.
- **The game screen's effects** (`GameInterface`):
  - the `m:ss.cc` time display, proved to read back as the time truncated to hundredths;
  - the 10 ms clock tick and the two-minute timeout;
  - the way back to the menu.
- **The guess box** (`GuessInput`):
  - the judge, which trims the guess and ignores case;
  - the three hints;
  - the panel that shows the last five guesses.
- **The earlier canvas** (`PixelCanvas`):
  - the smiley demonstration pattern;
  - the painting test;
  - the one-cell-per-tick auto-reveal timer, which ends the round once no cell is hidden.
- **Puzzle records built from file names** (`GameImages`).
- **The two image-list scripts** (`ImageFiles`, `WatchImages`, `UpdateImages`).
  Both use Node's `path.extname` and `path.parse(...).name` on bare file names and
  the same extension filter. The watcher also reads `answer_category_difficulty`
  out of the file name.
- **The backend's player bookkeeping** (`Server`). It works over in-memory tables:
  - get or create a player;
  - save a round and update that player's statistics;
  - look a player up.

  A lookup by name yields a row only when exactly one row has that name, following
  the database client's `single` rule.
- **Shared text and number helpers** (`Text`): JavaScript's `trim`, `toLowerCase`,
  `toUpperCase`, `split`, `padStart` and number-to-string on `seq<char>`.

How the model is built:
- Reducer cases that only compute are functions on a `GameState` datatype.
- Cases that allocate or write rows are methods with `modifies` clauses: START_GAME,
  REVEAL_PIXEL and AUTO_REVEAL_PIXELS.
- Each loop in the source is a method with loop invariants: the row allocation,
  the scan for hidden cells, the random picks and the smiley painting.
- A random pick is Dafny's `:|`, so every proof holds for every choice.
- `Date.now()` is a parameter.

The reducer does not cap hints at three; only the hint button does (`GuessInput.HintButtonCaps`).
The reducer does not ignore actions once a round is completed or failed.

## Model

| member | source | states |
|---|---|---|
| GameTypes.BaseScore | frontend/src/contexts/GameContext.tsx:111-112 | base score is 100 exactly for hard, 75 exactly for medium, 50 exactly for easy or no image |
| GameTypes.TotalPixels | src/contexts/GameContext.tsx:72 | the divisor is always positive: gridSize squared when that is non-zero, and 1 without an image or for size 0 |
| Text.Trim | frontend/src/components/GuessInput.tsx:18-20 | `trim` leaves no whitespace at either end, never lengthens, and yields empty exactly for an all-whitespace text |
| Text.TrimPadded | frontend/src/components/GuessInput.tsx:20 | whitespace around a trimmed core is exactly what `trim` removes |
| Text.TrimIdempotent | frontend/src/components/GuessInput.tsx:20 | trimming twice equals trimming once |
| Text.TrimSameSpacing | frontend/src/components/GuessInput.tsx:20 | texts with whitespace in the same places are trimmed at the same positions |
| Text.ToLower | frontend/src/components/GuessInput.tsx:20-21 | lower-casing maps each character on its own, ASCII letters only, and so keeps the length |
| Text.ToUpper | frontend/src/components/GuessInput.tsx:41 | upper-casing keeps the length and maps each character on its own |
| Text.CaseKeepsSpacing | frontend/src/components/GuessInput.tsx:20 | changing case never creates or removes whitespace |
| Text.ToLowerForgetsCase | frontend/src/components/GuessInput.tsx:20-21 | lower-casing is idempotent and undoes an earlier upper-casing |
| Text.NatToString | frontend/src/data/gameImages.ts:32 | a number prints as at least one decimal digit, with no leading zero, and as one digit exactly below 10 |
| Text.ParseNatToString | frontend/src/data/gameImages.ts:32 | the printed digits read back as the number |
| Text.IntToString | frontend/src/components/GameInterface.tsx:40 | an integer prints as decimal digits that read back as it, after a leading minus sign when it is negative, with no leading zero |
| Text.PadStart2 | frontend/src/components/GameInterface.tsx:40 | `padStart(2, '0')` gives length max(2, n), keeps the text at the end, and pads with zeros only |
| Text.Split | frontend/watch-images.js:22 | `split` gives at least one part, no part holds the separator, and joining the parts gives the text back |
| Text.SplitJoin | frontend/watch-images.js:22 | splitting a join of separator-free parts gives the parts back |
| RevealGrid.CountRow | frontend/src/contexts/GameContext.tsx:167 | a row's count is at most its length, and positive exactly when the row has a revealed cell |
| RevealGrid.Count | frontend/src/contexts/GameContext.tsx:167 | `flat().filter(Boolean).length`; its bound and its change under a reveal are RevealGrid.CountBound and RevealGrid.CountSetCell |
| RevealGrid.CountBound | frontend/src/contexts/GameContext.tsx:167 | no more cells are revealed than the grid has |
| RevealGrid.CountSetCell | src/contexts/GameContext.tsx:70-73 | revealing one cell raises the count by one exactly when the cell was hidden |
| RevealGrid.NothingRevealed | frontend/src/contexts/GameContext.tsx:56-72 | a freshly allocated grid counts zero |
| RevealGrid.FillPercent | frontend/src/contexts/GameContext.tsx:166-168 | progress lies between 0 and 100; it is 100 exactly when all cells are revealed and 0 exactly when none are |
| RevealGrid.NewGrid | src/contexts/GameContext.tsx:58 | allocation gives `n` fresh, distinct rows of `n` cells, all hidden |
| RevealGrid.RevealCell | src/contexts/GameContext.tsx:69-70 | the write changes exactly one cell of the shared rows |
| RevealGrid.CollectHidden | frontend/src/contexts/GameContext.tsx:151-157 | the scan yields the hidden cells in row-major order |
| RevealGrid.GapsSpec | frontend/src/contexts/GameContext.tsx:151-157 | a position is listed exactly when it lies inside the grid and is hidden; no position is listed twice |
| RevealGrid.GapsAndCount | frontend/src/contexts/GameContext.tsx:159 | hidden cells plus revealed cells make up all n * n cells |
| RevealGrid.FullIffAllShown | src/components/PixelCanvas.tsx:105-111 | the grid is full exactly when no cell of the area is hidden |
| GameContext.InitialStateValid | frontend/src/contexts/GameContext.tsx:39-52 | the game starts at the menu with no image, an empty grid, zero score, best score, hints and counters, and the `animals` category, and that state is well formed with progress in sync |
| GameContext.ProgressInRange | frontend/src/contexts/GameContext.tsx:166-168 | in a well-formed, in-sync state, progress is a percentage between 0 and 100 |
| GameContext.TimeBonus | frontend/src/contexts/GameContext.tsx:113 | the bonus is the number of whole seconds left in the first minute, and 0 after it |
| GameContext.FinalScore | frontend/src/contexts/GameContext.tsx:113-115 | failure scores 0; success scores exactly max(10, base + bonus - 10 per hint) |
| GameContext.TimeBonusAntitone | frontend/src/contexts/GameContext.tsx:113 | a later finish never earns a larger bonus |
| GameContext.FinalScoreMonotone | frontend/src/contexts/GameContext.tsx:113-115 | finishing sooner or with fewer hints never scores less |
| GameContext.FinalScoreAtMost | frontend/src/contexts/GameContext.tsx:111-115 | with a non-negative clock, a win scores at most the base plus 60 |
| GameContext.FinalScoreExamples | frontend/src/contexts/GameContext.tsx:111-115 | a hard image at time 0 scores 160, and 110 with five hints |
| GameContext.SubmitGuessStep | frontend/src/contexts/GameContext.tsx:90-95 | the guess is appended after the earlier guesses, the input is cleared, and nothing else changes |
| GameContext.UseHintStep | frontend/src/contexts/GameContext.tsx:97-102 | one more hint and 10 points off, floored at 0; there is no cap; nothing else changes |
| GameContext.UpdateTimeStep | frontend/src/contexts/GameContext.tsx:104-108 | only the clock changes |
| GameContext.CompleteGameStep | frontend/src/contexts/GameContext.tsx:110-124 | the status becomes completed or failed and the score becomes FinalScore; best is the larger of the old best and the new score; nothing else changes |
| GameContext.ResetGameStep | frontend/src/contexts/GameContext.tsx:126-130 | the initial state in every field except the best score, which is kept |
| GameContext.SetCategoryStep | frontend/src/contexts/GameContext.tsx:132-136 | only the category changes |
| GameContext.UpdateRevealProgressStep | frontend/src/contexts/GameContext.tsx:178-182 | only the progress changes, to the payload |
| GameContext.Apply | frontend/src/contexts/GameContext.tsx:184-185 | an unrecognized action returns the state itself; no non-grid action writes rows |
| GameContext.ApplyKeepsInvariants | frontend/src/contexts/GameContext.tsx:90-136 | the grid-free actions never lower the best score and keep the grid well formed; all but UPDATE_REVEAL_PROGRESS keep progress in sync with the fill ratio |
| GameContext.UpdateRevealProgressDesyncs | frontend/src/contexts/GameContext.tsx:178-182 | the payload can move progress away from the fill ratio |
| GameContext.ResetIsIdempotent | frontend/src/contexts/GameContext.tsx:126-130 | resetting twice is resetting once |
| GameContext.BatchSize | frontend/src/contexts/GameContext.tsx:142 | the batch is 12 exactly while fewer than 16 fast ticks have run, and 8 otherwise |
| GameContext.NextCounts | frontend/src/contexts/GameContext.tsx:143-145 | exactly the counter that matches the batch goes up by one |
| GameContext.CountsAfterTicks | frontend/src/contexts/GameContext.tsx:141-145 | after k ticks the counters are (min(k, 16), max(0, k - 16)) |
| GameContext.StartGameStep | frontend/src/contexts/GameContext.tsx:56-72 | a new playing round on fresh all-hidden rows; every per-round field is zeroed, the best score is kept, and the state is well formed and in sync |
| GameContext.RevealPixelStep | frontend/src/contexts/GameContext.tsx:74-88 | exactly that cell is revealed, in the shared rows; the count rises by one exactly when it was hidden; progress is recomputed |
| GameContext.PickKeepsInvariant | frontend/src/contexts/GameContext.tsx:160-164 | removing one candidate and revealing its cell adds one revealed cell and keeps the candidates distinct and hidden |
| GameContext.RevealRandomCells | frontend/src/contexts/GameContext.tsx:159-164 | min(batch, hidden) hidden cells become revealed, and no revealed cell is hidden again |
| GameContext.AutoRevealPixelsStep | frontend/src/contexts/GameContext.tsx:138-176 | with no image, nothing changes; otherwise min(batch, hidden) more cells are revealed, exactly one counter goes up, progress is recomputed, and nothing else changes |
| GameContext.GameReducer | frontend/src/contexts/GameContext.tsx:54-187 | every action keeps the grid well formed and never lowers the best score; every action except UPDATE_REVEAL_PROGRESS keeps progress in sync; REVEAL_PIXEL reveals exactly its cell, and AUTO_REVEAL_PIXELS reveals min(batch, hidden) more cells and advances one counter |
| LegacyGameContext.InitialStateValid | src/contexts/GameContext.tsx:36-47 | the earlier game starts at the menu with no image, an empty grid, zero score and hints, and the `animals` category, and that state is well formed with progress in sync |
| LegacyGameContext.TimeBonus | src/contexts/GameContext.tsx:105 | the bonus is 60 minus the elapsed value, floored at 0 |
| LegacyGameContext.FinalScore | src/contexts/GameContext.tsx:103-112 | failure scores 0; success scores base + bonus - 10 per hint, floored at 0 |
| LegacyGameContext.WinCanScoreZero | src/contexts/GameContext.tsx:103-107 | a win can score 0 |
| LegacyGameContext.SubmitGuessStep | src/contexts/GameContext.tsx:82-87 | the guess is appended, the input is cleared, and nothing else changes |
| LegacyGameContext.UseHintStep | src/contexts/GameContext.tsx:89-94 | one more hint and 10 points off, floored at 0 |
| LegacyGameContext.CompleteGameStep | src/contexts/GameContext.tsx:102-113 | the status becomes completed or failed; the score is FinalScore, and 0 on failure |
| LegacyGameContext.Apply | src/contexts/GameContext.tsx:96-131 | RESET_GAME restores the initial state; the single-field actions change only their field; unknown actions change nothing |
| LegacyGameContext.ResetForgetsEverything | src/contexts/GameContext.tsx:115-116 | any two states reset to the same initial state |
| LegacyGameContext.ApplyKeepsInvariants | src/contexts/GameContext.tsx:82-128 | the grid-free actions keep the grid well formed and progress in sync |
| LegacyGameContext.StartGameStep | src/contexts/GameContext.tsx:51-65 | a new playing round on fresh all-hidden rows, with everything zeroed |
| LegacyGameContext.RevealPixelStep | src/contexts/GameContext.tsx:67-80 | exactly that cell is revealed in the shared rows, and progress is recomputed |
| LegacyGameContext.GameReducer | src/contexts/GameContext.tsx:49-133 | every action keeps the grid well formed; progress stays in sync except under UPDATE_REVEAL_PROGRESS; REVEAL_PIXEL reveals exactly its cell in the shared rows |
| GameInterface.JsRem | frontend/src/components/GameInterface.tsx:37-39 | JavaScript's `%`: dividend = truncated quotient * divisor + remainder, and the remainder takes the dividend's sign |
| GameInterface.FormatTime | frontend/src/components/GameInterface.tsx:35-41 | the `m:ss.cc` display; what it shows is stated by GameInterface.FormatTimeNonNegative, GameInterface.FormatTimeRoundTrip and GameInterface.FormatTimeNegative |
| GameInterface.FormatTimeNonNegative | frontend/src/components/GameInterface.tsx:35-41 | for a non-negative time, the display is minutes, seconds and hundredths, each computed with Dafny's own division |
| GameInterface.FormatTimeRoundTrip | frontend/src/components/GameInterface.tsx:35-41 | the display parses back to the time with its last digit dropped |
| GameInterface.FormatTimeNegative | frontend/src/components/GameInterface.tsx:35-41 | a negative time shows negative fields |
| GameInterface.TimerTick | frontend/src/components/GameInterface.tsx:14-22 | a tick dispatches UPDATE_TIME(time + 10) exactly while playing |
| GameInterface.TimeoutCheck | frontend/src/components/GameInterface.tsx:25-29 | COMPLETE_GAME(false) is dispatched exactly when two minutes have elapsed in a playing round |
| GameInterface.BackToMenu | frontend/src/components/GameInterface.tsx:31-33 | the button's action never touches the grid; its effect is stated by GameInterface.BackToMenuKeepsBest |
| GameInterface.BackToMenuKeepsBest | frontend/src/components/GameInterface.tsx:31-33 | going back to the menu drops the round and keeps the best score |
| GameInterface.ClockStep | frontend/src/components/GameInterface.tsx:14-29 | one 10 ms tick: outside a playing round nothing changes; before two minutes only the clock advances by 10; at two minutes the round fails with score 0; the image, the grid and the best score are kept |
| GameInterface.ClockIdle | frontend/src/components/GameInterface.tsx:14-29 | outside a playing round the clock changes nothing |
| GameInterface.ClockBeforeTimeout | frontend/src/components/GameInterface.tsx:14-29 | before the timeout, k ticks add 10 * k to the clock and change nothing else |
| GameInterface.ClockTimesOut | frontend/src/components/GameInterface.tsx:14-29 | the 12000th tick fails the round at 120000 ms with score 0, keeps the best score, and the clock then stays idle |
| GuessInput.IsCorrect | frontend/src/components/GuessInput.tsx:20-23 | a correct guess, once trimmed, is exactly as long as the answer |
| GuessInput.HandleSubmitGuess | frontend/src/components/GuessInput.tsx:15-32 | a blank guess or a missing image does nothing; otherwise COMPLETE_GAME(true) exactly when correct, else SUBMIT_GUESS with the trimmed text, and the input is cleared |
| GuessInput.LowerTrimRecased | frontend/src/components/GuessInput.tsx:20 | re-casing the guess does not change its trimmed, lower-cased form |
| GuessInput.JudgeIgnoresCase | frontend/src/components/GuessInput.tsx:20-23 | re-casing the guess or the answer does not change the verdict |
| GuessInput.PaddedAnswerIsCorrect | frontend/src/components/GuessInput.tsx:18-24 | the answer with any whitespace around it is accepted |
| GuessInput.UntrimmedAnswerNeverGuessed | frontend/src/components/GuessInput.tsx:18-24 | an empty answer, or one with whitespace at an end, can never be guessed |
| GuessInput.LowerAgreesTrimmed | frontend/src/components/GuessInput.tsx:20-21 | texts that lower-case alike have the same length and the same whitespace at their ends |
| GuessInput.WrongGuessRecorded | frontend/src/components/GuessInput.tsx:26-27 | a wrong guess ends up at the end of the history, trimmed, with its case kept |
| GuessInput.Hints | frontend/src/components/GuessInput.tsx:39-43 | there are three hints |
| GuessInput.HandleUseHint | frontend/src/components/GuessInput.tsx:34-47 | no image or three hints used means nothing happens; otherwise USE_HINT is dispatched and the hint at min(hintsUsed, 2) is shown, or an exception for an empty answer |
| GuessInput.PressHint | frontend/src/components/GuessInput.tsx:34-37 | with an image and fewer than three hints used, a press applies USE_HINT (one more hint, 10 points off, floored at 0); otherwise nothing changes |
| GuessInput.HintButtonCaps | frontend/src/components/GuessInput.tsx:34-37 | through the button, k presses bring the hint count to min(3, start + k) |
| GuessInput.HintsInOrder | frontend/src/components/GuessInput.tsx:39-46 | the presses show category, then first letter upper-cased, then length; a fourth does nothing |
| GuessInput.RecentGuesses | frontend/src/components/GuessInput.tsx:133 | the panel shows the last min(5, n) guesses, oldest first |
| GuessInput.RecentAfterGuess | frontend/src/components/GuessInput.tsx:133 | after a guess the panel ends with it, and the panel depends only on the previous panel |
| PixelCanvas.PatternCell | src/components/PixelCanvas.tsx:16-46 | a pattern cell always lies inside the n-by-n grid |
| PixelCanvas.SmileyShapes | src/components/PixelCanvas.tsx:19-42 | both smileys have eight cells inside their grid; the 16-by-16 loop sets exactly the listed cells |
| PixelCanvas.PatternBlankOtherwise | src/components/PixelCanvas.tsx:16-45 | any other grid size gives a blank pattern |
| PixelCanvas.PaintSmiley8 | src/components/PixelCanvas.tsx:20-31 | the blank 8-by-8 grid ends up holding exactly the smiley |
| PixelCanvas.PaintSmiley16 | src/components/PixelCanvas.tsx:32-42 | the blank 16-by-16 grid ends up holding exactly the cells the condition picks |
| PixelCanvas.GeneratePixelPattern | src/components/PixelCanvas.tsx:16-46 | fresh n-by-n rows whose cells are exactly the pattern for n |
| PixelCanvas.Painted | src/components/PixelCanvas.tsx:76 | a painted cell is in the pattern and is a revealed cell of an existing row |
| PixelCanvas.PaintedAfterReveal | src/components/PixelCanvas.tsx:76 | revealing a cell paints at most that cell, and only where the pattern has it |
| PixelCanvas.RevealInterval | src/components/PixelCanvas.tsx:113 | the interval is 1500 ms for hard, 2000 ms for medium and 2500 ms for easy |
| PixelCanvas.HarderRevealsFaster | src/components/PixelCanvas.tsx:113 | harder images are uncovered faster |
| PixelCanvas.TickScheduled | src/components/PixelCanvas.tsx:91 | the auto-reveal timer runs only while a round with an image is playing; PixelCanvas.TickAndReduce requires it |
| PixelCanvas.AutoRevealTick | src/components/PixelCanvas.tsx:93-112 | a tick asks to reveal a hidden in-area cell, or fails the round exactly when every cell is shown |
| PixelCanvas.TickAndReduce | src/components/PixelCanvas.tsx:91-112 | while cells are hidden, one more is revealed and the status is kept; on a full grid the round fails with score 0 |
| ImageFiles.LastIndexOf | frontend/watch-images.js:16 | finds the last occurrence: none exactly when the character is absent |
| ImageFiles.ExtName | frontend/watch-images.js:16 | `extname` is a suffix that is empty or a dot with no further dot, and never the whole name |
| ImageFiles.BaseName | frontend/watch-images.js:21 | the name and the extension make up the file name |
| ImageFiles.ExtNameOf | frontend/watch-images.js:16-21 | a proper extension after a name not starting with a dot is split off exactly |
| ImageFiles.IsImageFile | frontend/watch-images.js:15-18 | a kept file has a non-empty extension and is not the list file |
| ImageFiles.ListFileHasNoImageExtension | frontend/watch-images.js:17 | the list file would be dropped for its extension alone |
| ImageFiles.UpperCaseImageFile | frontend/watch-images.js:16-17 | the extension test ignores case |
| ImageFiles.ImageExtensionShape | frontend/watch-images.js:10 | every listed extension is a dot and then j, p, g, w or b |
| ImageFiles.TextFileIsNotImage | frontend/watch-images.js:16-17 | other extensions are dropped |
| ImageFiles.DotFileIsNotImage | frontend/watch-images.js:16-17 | a name that is only a dot and an extension is not an image |
| ImageFiles.FilterImageFiles | frontend/watch-images.js:15-18 | a file is kept exactly when it is an image file; the kept files are in listing order |
| ImageFiles.FilterAppend | frontend/watch-images.js:15-18 | filtering distributes over concatenation of listings |
| ImageFiles.FilterIdempotent | frontend/update-images.js:20-23 | filtering the filtered list changes nothing |
| GameImages.StripExtension | frontend/src/data/gameImages.ts:29 | the result is a prefix, and anything removed is one dot-led extension without dot or slash |
| GameImages.StripExtensionOf | frontend/src/data/gameImages.ts:29 | exactly a trailing extension is removed |
| GameImages.StrippedExamples | frontend/src/data/gameImages.ts:29 | only the last extension goes, and `.png` becomes empty |
| GameImages.KeptExamples | frontend/src/data/gameImages.ts:29 | a trailing dot, or no dot, keeps the name whole |
| GameImages.CreatePixelImageFromFile | frontend/src/data/gameImages.ts:24-39 | grid 16; the given category and difficulty; served from `/images/`; the name is the file name with its extension stripped, and the id is name-timestamp |
| GameImages.CreatePixelImageFromFileWithDefaults | frontend/src/data/gameImages.ts:26-27 | the defaults are `animals` and easy |
| GameImages.ImageFromFile | frontend/src/data/gameImages.ts:29-35 | the answer of base + extension is the base, and the image keeps the full file name |
| GameImages.IdEndsWithTimestamp | frontend/src/data/gameImages.ts:32 | the digits after the id's last dash read back as the timestamp |
| GameImages.LoadImagesFromFolder | frontend/src/data/gameImages.ts:4-21 | the result is the three categories, each empty |
| WatchImages.SegmentOr | frontend/watch-images.js:25-27 | a missing or empty segment gives the fallback; otherwise the segment |
| WatchImages.ParseRecord | frontend/watch-images.js:20-35 | the record keeps the file name; category and difficulty are non-empty and hold no `_`; the name is empty only for an empty base |
| WatchImages.RecordOf | frontend/watch-images.js:21-34 | the same guarantees, over the base name |
| WatchImages.ParseRecordOf | frontend/watch-images.js:20-35 | a name joined from `_`-free segments gives back its segments, with the defaults for missing ones |
| WatchImages.FullNameParsed | frontend/watch-images.js:24-34 | `cat_pets_hard.png` gives cat, pets, hard |
| WatchImages.BareNameParsed | frontend/watch-images.js:25-27 | `dog.jpg` gives dog, animals, easy |
| WatchImages.EmptyAnswerSegment | frontend/watch-images.js:25-26 | with an empty first segment, the whole base is the answer |
| WatchImages.UpdateImageList | frontend/watch-images.js:15-35 | one record per image file, in order, each record being that file's parsed answer, category and difficulty |
| UpdateImages.UpdateImageList | frontend/update-images.js:20-28 | the list holds exactly the image files, in listing order |
| UpdateImages.ScriptsAgree | frontend/update-images.js:20-23 | both scripts select the same files in the same order |
| UpdateImages.ListIsStable | frontend/update-images.js:20-28 | listing the list again gives the same list |
| UpdateImages.ListingExample | frontend/update-images.js:20-23 | an upper-case image is kept; a text file and the list file are dropped |
| Server.Named | backend/server.js:20-23 | exactly the rows with that name; empty exactly when the name is absent |
| Server.Single | backend/server.js:20-24 | a row exactly when one row has the name, and then that row |
| Server.SingleOfUnique | backend/server.js:20-28 | with unique names, a lookup succeeds exactly when the name is present, and returns its row |
| Server.DuplicateNameNotFound | backend/server.js:20-24 | two rows with the same name make the lookup fail |
| Server.GetOrCreate | backend/server.js:15-42 | an existing row is returned and the table kept; otherwise one zeroed row is appended and returned |
| Server.GetOrCreateKeepsUnique | backend/server.js:15-38 | names stay unique, and the returned row is the one a lookup then finds |
| Server.GetOrCreateIdempotent | backend/server.js:15-38 | asking twice adds at most one row |
| Server.UpdatedStats | backend/server.js:66-70 | one more game; one more win exactly when completed; best rises only through a completed, higher score |
| Server.UpdateWhere | backend/server.js:72-75 | rows with the name get the update; the rest are untouched |
| Server.SaveSession | backend/server.js:45-82 | the session is always stored; other rows and all names are unchanged; a failed lookup leaves the players as they were |
| Server.SaveSessionUpdatesPlayer | backend/server.js:57-76 | with unique names, only the player's own row changes, by the statistics rule |
| Server.SaveSessionKeepsBest | backend/server.js:69 | saving never lowers anyone's best score |
| Server.ReplaySummary | backend/server.js:66-70 | over any series of rounds: played grows by their number and won by the completed ones; best is the old best or a completed score, and no lower than any completed score |
| Server.PlayerStore.GetOrCreatePlayer | backend/server.js:15-42 | the stored table changes as GetOrCreate says, keeps names unique, and a lookup then finds the returned player |
| Server.PlayerStore.SaveGameSession | backend/server.js:45-82 | the tables change as SaveSession says, names stay unique, and the stored session is returned |
| Server.PlayerStore.GetPlayer | backend/server.js:85-101 | the found row has the name; with unique names, a row is found exactly when the name is present |

## Left out

- GameContext.RevealPixelStep: requires the row and column to lie inside the grid. Out of range, the source throws on a missing row (a negative or too-large row index) and extends a row for a column past its end. For a negative column it sets a non-index property, which `flat()` ignores, so nothing is revealed.
- LegacyGameContext.RevealPixelStep: the same in-range requirement.
- GameContext.AutoRevealPixelsStep: requires a grid size above zero. For size 0 the source divides 0 by 0 and stores NaN as the progress.
- An image's grid size is a `nat`. For a negative size, the source's row allocation throws a RangeError when the round starts. The model has no negative sizes, so that error path is not represented.
- Progress and scores are exact reals and integers; floating-point rounding is not modelled.
- The `paused` status is declared but no action enters or leaves it, and the model does the same.
- `Math.random` is an arbitrary choice (`:|`), so no distribution is modelled. Timers (`setInterval`, clearing on unmount) are modelled only as the action each tick dispatches.
- `Date.now()` is a parameter of GameImages.CreatePixelImageFromFile.
- Text.ToLower: maps ASCII letters only, so its length-preserving, character-by-character contract is a property of this model rather than of `toLowerCase`, which also lower-cases letters such as `É` and turns `İ` into two code units. For the extension filter this is exact, since no other character lower-cases into one of the six extensions' letters. For the guess judge, non-ASCII letters are compared without case folding.
- String lengths are code points, not UTF-16 code units.
- Text.ToUpper: upper-cases only ASCII letters, so the first-letter hint for a non-ASCII initial is not modelled beyond that.
- React rendering, toasts, the canvas drawing calls and the component state hooks are left out. The handlers are modelled by the action they dispatch and by what they leave in the input box.
- The component that dispatches AUTO_REVEAL_PIXELS in the current front end is not part of this model. The reducer case itself is modelled.
- The image-list scripts' file I/O is left out: `readdirSync`, `writeFileSync`, `fs.watch` and its debounce, and the console output. A directory listing is a parameter. Entries are bare names without `/`, as `readdirSync` returns them.
- The backend's HTTP layer (Express, JSON bodies, status codes 404 and 500) and the database client are left out. The tables are in-memory sequences. Database and network failures are not modelled, and neither are the session row's generated fields.
- Server.PlayerStore.GetPlayer: returns nothing where the route answers 404.
- Server.GetOrCreate: a new player row is assumed to start with 0 games played, 0 won and best score 0. The route inserts only the name, so these values come from the database's column defaults, which are not part of this model.
- The Player schema's `trim` on names is not modelled; names are compared as given.
