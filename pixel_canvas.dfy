/** The earlier canvas component: the demonstration pattern it paints, which
    cells it paints, and the auto-reveal timer that uncovers one random
    hidden cell per tick and ends the round once none is left. */
module PixelCanvas {
  import opened Optional
  import opened GameTypes
  import opened RevealGrid
  import LegacyGameContext

  // ---------------------------------------------------------------- the pattern

  /** The 8 by 8 smiley: two eyes, a nose and a mouth. */
  const Smiley8: set<(int, int)> := {(2, 2), (2, 5), (4, 3), (4, 4), (5, 2), (6, 3), (6, 4), (5, 5)}

  /** The cells the 16 by 16 loop sets: inside rows and columns 4 to 11, the
      eyes on row 6, the mouth on row 9 and the nose on row 7. */
  predicate Smiley16(i: int, j: int) {
    && 4 <= i < 12 && 4 <= j < 12
    && ((i == 6 && (j == 6 || j == 9)) || (i == 9 && j >= 6 && j <= 9) || (i == 7 && (j == 7 || j == 8)))
  }

  /** Cell (i, j) of the pattern for a grid of `n`: the smiley for 8 and 16,
      nothing for any other size. */
  predicate PatternCell(n: nat, i: int, j: int)
    ensures PatternCell(n, i, j) ==> 0 <= i < n && 0 <= j < n
  {
    if n == 8 then (i, j) in Smiley8
    else if n == 16 then Smiley16(i, j)
    else false
  }

  /** The same eight cells as the 16 by 16 loop, listed. */
  const Smiley16Cells: set<(int, int)> := {(6, 6), (6, 9), (9, 6), (9, 7), (9, 8), (9, 9), (7, 7), (7, 8)}

  /** Both smileys have eight cells, and the 16 by 16 one is the listed set. */
  lemma SmileyShapes()
    ensures |Smiley8| == 8 && |Smiley16Cells| == 8
    ensures forall i, j :: Smiley16(i, j) <==> (i, j) in Smiley16Cells
    ensures forall i, j :: (i, j) in Smiley8 ==> 0 <= i < 8 && 0 <= j < 8
  {
    forall i, j ensures Smiley16(i, j) <==> (i, j) in Smiley16Cells {
      if Smiley16(i, j) {
        assert i == 6 || i == 7 || i == 9;
      }
    }
  }

  /** Any size other than 8 and 16 gives a blank pattern. */
  lemma PatternBlankOtherwise(n: nat, i: int, j: int)
    requires n != 8 && n != 16
    ensures !PatternCell(n, i, j)
  {
  }

  /** The eight cells of the 8 by 8 smiley, set one by one on a blank grid. */
  method PaintSmiley8(pattern: seq<array<bool>>)
    requires IsGrid(pattern, 8)
    requires forall i, j :: 0 <= i < 8 && 0 <= j < 8 ==> !pattern[i][j]
    modifies pattern
    ensures forall i, j :: 0 <= i < 8 && 0 <= j < 8 ==> pattern[i][j] == ((i, j) in Smiley8)
  {
    pattern[2][2] := true;
    pattern[2][5] := true;
    pattern[4][3] := true;
    pattern[4][4] := true;
    pattern[5][2] := true;
    pattern[6][3] := true;
    pattern[6][4] := true;
    pattern[5][5] := true;
  }

  /** The 16 by 16 smiley: a scan of rows and columns 4 to 11 of a blank
      grid that sets the cells of the eyes, nose and mouth. */
  method PaintSmiley16(pattern: seq<array<bool>>)
    requires IsGrid(pattern, 16)
    requires forall i, j :: 0 <= i < 16 && 0 <= j < 16 ==> !pattern[i][j]
    modifies pattern
    ensures forall i, j :: 0 <= i < 16 && 0 <= j < 16 ==> pattern[i][j] == Smiley16(i, j)
  {
    var i := 4;
    while i < 12
      invariant 4 <= i <= 12
      invariant forall r, c :: 0 <= r < 16 && 0 <= c < 16 ==> pattern[r][c] == (Smiley16(r, c) && r < i)
    {
      var j := 4;
      while j < 12
        invariant 4 <= j <= 12
        invariant forall r, c :: 0 <= r < 16 && 0 <= c < 16
                    ==> pattern[r][c] == (Smiley16(r, c) && (r < i || (r == i && c < j)))
      {
        if (i == 6 && (j == 6 || j == 9)) || (i == 9 && j >= 6 && j <= 9) || (i == 7 && (j == 7 || j == 8)) {
          pattern[i][j] := true;
        }
        j := j + 1;
      }
      i := i + 1;
    }
  }

  /** `generatePixelPattern(n)`: `n` fresh rows of `n` cells, then the
      smiley's cells for a grid of 8 or 16. */
  method GeneratePixelPattern(n: nat) returns (pattern: seq<array<bool>>)
    ensures IsGrid(pattern, n)
    ensures forall i :: 0 <= i < n ==> fresh(pattern[i])
    ensures forall i, j :: 0 <= i < n && 0 <= j < n ==> pattern[i][j] == PatternCell(n, i, j)
  {
    pattern := NewGrid(n);
    assert forall i, j :: 0 <= i < n && 0 <= j < n ==> pattern[i][j] == Snapshot(pattern)[i][j] == false;
    if n == 8 {
      PaintSmiley8(pattern);
    } else if n == 16 {
      PaintSmiley16(pattern);
    }
  }

  /** The painting test: the row exists, the cell is revealed, and the
      pattern has it. */
  predicate Painted(revealed: seq<seq<bool>>, pattern: seq<seq<bool>>, row: nat, col: nat)
    requires IsSquare(pattern, |pattern|) && row < |pattern| && col < |pattern|
    ensures Painted(revealed, pattern, row, col) ==> pattern[row][col] && row < |revealed| && col < |revealed[row]| && revealed[row][col]
  {
    Shown(revealed, row, col) && pattern[row][col]
  }

  /** Revealing a cell paints at most that cell, and only if the pattern has it. */
  lemma PaintedAfterReveal(g: seq<seq<bool>>, pattern: seq<seq<bool>>, r: nat, c: nat, row: nat, col: nat)
    requires r < |g| && c < |g[r]|
    requires IsSquare(pattern, |pattern|) && row < |pattern| && col < |pattern|
    ensures Painted(g[r := g[r][c := true]], pattern, row, col)
        <==> Painted(g, pattern, row, col) || ((row, col) == (r, c) && pattern[r][c])
  {
  }

  // ---------------------------------------------------------------- the auto-reveal timer

  /** The timer runs only while a round with an image is playing. */
  predicate TickScheduled(status: GameStatus, image: Option<PixelImage>) {
    status == Playing && image.Some?
  }

  /** `1000 + (hard ? 500 : medium ? 1000 : 1500)` milliseconds. */
  function RevealInterval(difficulty: Difficulty): (ms: nat)
    ensures ms == 1500 <==> difficulty == Hard
    ensures ms == 2000 <==> difficulty == Medium
    ensures ms == 2500 <==> difficulty == Easy
  {
    1000 + (match difficulty case Hard => 500 case Medium => 1000 case Easy => 1500)
  }

  /** Harder images are uncovered faster. */
  lemma HarderRevealsFaster()
    ensures RevealInterval(Hard) < RevealInterval(Medium) < RevealInterval(Easy)
  {
  }

  /** One tick: list the hidden cells of the `n` by `n` area row by row (a
      missing row or cell counts as hidden), then ask for one of them, chosen
      freely, to be revealed; with none left, end the round as lost. */
  method AutoRevealTick(rows: seq<array<bool>>, n: nat) returns (a: LegacyGameContext.Action)
    ensures a.RevealPixel? || a == LegacyGameContext.CompleteGame(false)
    ensures a.RevealPixel? ==> 0 <= a.row < n && 0 <= a.col < n && !Shown(Snapshot(rows), a.row, a.col)
    ensures a.CompleteGame? <==> forall r: nat, c: nat :: r < n && c < n ==> Shown(Snapshot(rows), r, c)
  {
    var hidden := CollectHidden(rows, n);
    ghost var g := Snapshot(rows);
    GapsSpec(g, n, n);
    if |hidden| > 0 {
      var k :| 0 <= k < |hidden|;
      var (row, col) := hidden[k];
      assert (row, col) in hidden;
      a := LegacyGameContext.RevealPixel(row, col);
    } else {
      forall r: nat, c: nat | r < n && c < n ensures Shown(g, r, c) {
        assert (r, c) !in hidden;
      }
      a := LegacyGameContext.CompleteGame(false);
    }
  }

  /** A tick followed by the reducer's response: while cells are hidden,
      exactly one more is revealed and the round goes on; once all are
      revealed, the round is lost. */
  method TickAndReduce(s: LegacyGameContext.GameState) returns (t: LegacyGameContext.GameState)
    requires LegacyGameContext.Wf(s) && TickScheduled(s.gameStatus, s.currentImage)
    modifies s.revealedPixels
    ensures LegacyGameContext.Wf(t)
    ensures var n := s.currentImage.value.gridSize;
            old(Count(Snapshot(s.revealedPixels))) < n * n
            ==> Count(Snapshot(t.revealedPixels)) == old(Count(Snapshot(s.revealedPixels))) + 1
                && t.gameStatus == s.gameStatus
    ensures var n := s.currentImage.value.gridSize;
            old(Count(Snapshot(s.revealedPixels))) == n * n
            ==> t.gameStatus == Failed && t.score == 0
  {
    var n := s.currentImage.value.gridSize;
    SnapshotOfGrid(s.revealedPixels, n);
    FullIffAllShown(Snapshot(s.revealedPixels), n);
    var a := AutoRevealTick(s.revealedPixels, n);
    if a.RevealPixel? {
      t := LegacyGameContext.RevealPixelStep(s, a.row, a.col);
    } else {
      t := LegacyGameContext.CompleteGameStep(s, false);
    }
  }
}
