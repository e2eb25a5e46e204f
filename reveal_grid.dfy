/** The reveal grid `revealedPixels: boolean[][]`: a list of rows, each row a
    mutable boolean array. Copying a game state copies the list but shares the
    rows, so a write into a row is seen by every state holding that list. */
module RevealGrid {

  // ---------------------------------------------------------------- counting

  /** Number of revealed cells in one row. */
  function CountRow(r: seq<bool>): (k: nat)
    ensures k <= |r|
    ensures k > 0 <==> true in r
  {
    if r == [] then 0 else CountRow(r[..|r| - 1]) + (if r[|r| - 1] then 1 else 0)
  }

  /** Number of revealed cells in the grid: `grid.flat().filter(Boolean).length`. */
  function Count(g: seq<seq<bool>>): nat
  {
    if g == [] then 0 else Count(g[..|g| - 1]) + CountRow(g[|g| - 1])
  }

  /** Every row of `g` has `n` cells. */
  predicate RowsOfWidth(g: seq<seq<bool>>, n: nat) {
    forall i :: 0 <= i < |g| ==> |g[i]| == n
  }

  predicate IsSquare(g: seq<seq<bool>>, n: nat) {
    |g| == n && RowsOfWidth(g, n)
  }

  /** The `n` by `n` grid with nothing revealed. */
  function AllFalse(n: nat): seq<seq<bool>> {
    seq(n, _ => seq(n, _ => false))
  }

  /** At most every cell is revealed. */
  lemma {:induction false} CountBound(g: seq<seq<bool>>, n: nat)
    requires RowsOfWidth(g, n)
    ensures Count(g) <= |g| * n
  {
    if g != [] {
      var p := g[..|g| - 1];
      assert RowsOfWidth(p, n) by {
        forall i | 0 <= i < |p| ensures |p[i]| == n {
          assert p[i] == g[i];
        }
      }
      CountBound(p, n);
      assert |g[|g| - 1]| == n;
      assert |p| * n + n == |g| * n;
    }
  }

  /** Revealing one cell raises the row's count by one exactly when it was hidden. */
  lemma {:induction false} CountRowSet(r: seq<bool>, c: nat)
    requires c < |r|
    ensures CountRow(r[c := true]) == CountRow(r) + (if r[c] then 0 else 1)
  {
    var r' := r[c := true];
    if c == |r| - 1 {
      assert r'[..|r| - 1] == r[..|r| - 1];
    } else {
      assert r'[..|r| - 1] == r[..|r| - 1][c := true];
      CountRowSet(r[..|r| - 1], c);
    }
  }

  /** Replacing a row changes the count by the difference of the rows' counts. */
  lemma {:induction false} CountReplaceRow(g: seq<seq<bool>>, i: nat, row: seq<bool>)
    requires i < |g|
    ensures Count(g[i := row]) == Count(g) - CountRow(g[i]) + CountRow(row)
  {
    var g' := g[i := row];
    if i == |g| - 1 {
      assert g'[..|g| - 1] == g[..|g| - 1];
    } else {
      assert g'[..|g| - 1] == g[..|g| - 1][i := row];
      CountReplaceRow(g[..|g| - 1], i, row);
    }
  }

  /** Revealing cell (r, c) adds one to the count exactly when it was hidden. */
  lemma CountSetCell(g: seq<seq<bool>>, r: nat, c: nat)
    requires r < |g| && c < |g[r]|
    ensures Count(g[r := g[r][c := true]]) == Count(g) + (if g[r][c] then 0 else 1)
  {
    CountReplaceRow(g, r, g[r][c := true]);
    CountRowSet(g[r], c);
  }

  lemma {:induction false} CountRowNone(r: seq<bool>)
    requires forall j :: 0 <= j < |r| ==> !r[j]
    ensures CountRow(r) == 0
  {
    if r != [] {
      CountRowNone(r[..|r| - 1]);
    }
  }

  /** A grid with nothing revealed counts zero. */
  lemma {:induction false} CountAllFalse(n: nat, k: nat)
    requires k <= n
    ensures Count(AllFalse(n)[..k]) == 0
  {
    if k > 0 {
      var g := AllFalse(n)[..k];
      assert g[..k - 1] == AllFalse(n)[..k - 1];
      CountAllFalse(n, k - 1);
      CountRowNone(g[k - 1]);
    }
  }

  /** A fresh grid counts zero. */
  lemma NothingRevealed(n: nat)
    ensures Count(AllFalse(n)) == 0
  {
    CountAllFalse(n, n);
    assert AllFalse(n)[..n] == AllFalse(n);
  }

  // ---------------------------------------------------------------- progress

  /** `(revealedCount / totalPixels) * 100`, exactly. */
  function FillPercent(count: nat, total: nat): (p: real)
    requires total > 0
    ensures count <= total ==> 0.0 <= p <= 100.0
    ensures p == 100.0 <==> count == total
    ensures p == 0.0 <==> count == 0
  {
    (count as real / total as real) * 100.0
  }

  // ---------------------------------------------------------------- rows in the heap

  /** The cells currently stored in the rows. */
  function Snapshot(rows: seq<array<bool>>): (g: seq<seq<bool>>)
    reads rows
    ensures |g| == |rows|
    ensures forall i :: 0 <= i < |rows| ==> g[i] == rows[i][..]
  {
    seq(|rows|, i requires 0 <= i < |rows| reads rows => rows[i][..])
  }

  /** No two rows are the same array. */
  predicate DistinctRows(rows: seq<array<bool>>) {
    forall i, j :: 0 <= i < j < |rows| ==> rows[i] != rows[j]
  }

  /** `n` distinct rows of `n` cells each, as START_GAME allocates them. */
  predicate IsGrid(rows: seq<array<bool>>, n: nat) {
    && |rows| == n
    && (forall i :: 0 <= i < n ==> rows[i].Length == n)
    && DistinctRows(rows)
  }

  lemma SnapshotOfGrid(rows: seq<array<bool>>, n: nat)
    requires IsGrid(rows, n)
    ensures IsSquare(Snapshot(rows), n)
  {
  }

  /** `Array(n).fill(null).map(() => Array(n).fill(false))`: `n` new rows of
      `n` hidden cells. */
  method NewGrid(n: nat) returns (rows: seq<array<bool>>)
    ensures IsGrid(rows, n)
    ensures Snapshot(rows) == AllFalse(n)
    ensures forall i :: 0 <= i < n ==> fresh(rows[i])
  {
    rows := [];
    while |rows| < n
      invariant |rows| <= n
      invariant forall i :: 0 <= i < |rows| ==> fresh(rows[i]) && rows[i].Length == n
      invariant forall i :: 0 <= i < |rows| ==> rows[i][..] == seq(n, _ => false)
      invariant DistinctRows(rows)
    {
      var row := new bool[n](_ => false);
      rows := rows + [row];
    }
  }

  /** `rows[r][c] = true`, written into the shared row. */
  method RevealCell(rows: seq<array<bool>>, r: nat, c: nat)
    requires r < |rows| && c < rows[r].Length
    requires DistinctRows(rows)
    modifies rows[r]
    ensures Snapshot(rows) == old(Snapshot(rows))[r := old(rows[r][..])[c := true]]
  {
    rows[r][c] := true;
  }

  // ---------------------------------------------------------------- hidden cells

  /** Cell (r, c) reads as revealed: its row exists, the cell exists, and it is true. */
  predicate Shown(g: seq<seq<bool>>, r: nat, c: nat) {
    r < |g| && c < |g[r]| && g[r][c]
  }

  /** The hidden cells (r, 0) .. (r, upto - 1), left to right. */
  function RowGaps(g: seq<seq<bool>>, r: nat, upto: nat): seq<(nat, nat)>
  {
    if upto == 0 then []
    else RowGaps(g, r, upto - 1) + (if Shown(g, r, upto - 1) then [] else [(r, upto - 1)])
  }

  /** The hidden cells of rows 0 .. upto - 1 over `n` columns, in row-major order. */
  function Gaps(g: seq<seq<bool>>, n: nat, upto: nat): seq<(nat, nat)>
  {
    if upto == 0 then [] else Gaps(g, n, upto - 1) + RowGaps(g, upto - 1, n)
  }

  predicate Distinct<T(==)>(s: seq<T>) {
    forall i, j :: 0 <= i < j < |s| ==> s[i] != s[j]
  }

  lemma {:induction false} RowGapsSpec(g: seq<seq<bool>>, r: nat, upto: nat)
    ensures forall p :: p in RowGaps(g, r, upto) <==> p.0 == r && p.1 < upto && !Shown(g, r, p.1)
    ensures Distinct(RowGaps(g, r, upto))
  {
    if upto > 0 {
      RowGapsSpec(g, r, upto - 1);
    }
  }

  /** A position is listed exactly when it is inside the area and hidden, and
      no position is listed twice. */
  lemma {:induction false} GapsSpec(g: seq<seq<bool>>, n: nat, upto: nat)
    ensures forall p :: p in Gaps(g, n, upto) <==> p.0 < upto && p.1 < n && !Shown(g, p.0, p.1)
    ensures Distinct(Gaps(g, n, upto))
  {
    if upto > 0 {
      GapsSpec(g, n, upto - 1);
      RowGapsSpec(g, upto - 1, n);
      var a, b := Gaps(g, n, upto - 1), RowGaps(g, upto - 1, n);
      forall i, j | 0 <= i < j < |a + b| ensures (a + b)[i] != (a + b)[j] {
        if j >= |a| && i < |a| {
          assert (a + b)[i] in a && (a + b)[j] in b;
        }
      }
    }
  }

  lemma {:induction false} RowGapsLength(row: seq<bool>, r: nat, g: seq<seq<bool>>, upto: nat)
    requires r < |g| && g[r] == row && upto <= |row|
    ensures |RowGaps(g, r, upto)| == upto - CountRow(row[..upto])
  {
    if upto > 0 {
      RowGapsLength(row, r, g, upto - 1);
      assert row[..upto][..upto - 1] == row[..upto - 1];
    }
  }

  lemma MulStep(k: nat, n: nat)
    requires k > 0
    ensures (k - 1) * n + n == k * n
  {
  }

  /** In an `n` by `n` grid, the hidden cells are the cells minus the revealed ones. */
  lemma {:induction false} GapsLength(g: seq<seq<bool>>, n: nat, upto: nat)
    requires IsSquare(g, n) && upto <= n
    ensures |Gaps(g, n, upto)| == upto * n - Count(g[..upto])
  {
    if upto > 0 {
      GapsLength(g, n, upto - 1);
      var row := g[upto - 1];
      RowGapsLength(row, upto - 1, g, n);
      assert row[..n] == row;
      assert g[..upto][..upto - 1] == g[..upto - 1];
      var before, here := Count(g[..upto - 1]), CountRow(row);
      assert Count(g[..upto]) == before + here;
      var a, b := Gaps(g, n, upto - 1), RowGaps(g, upto - 1, n);
      assert |a| == (upto - 1) * n - before;
      assert |b| == n - here;
      MulStep(upto, n);
      assert |a + b| == upto * n - (before + here);
    }
  }

  /** The hidden cells and the revealed ones make up the whole square. */
  lemma GapsAndCount(g: seq<seq<bool>>, n: nat)
    requires IsSquare(g, n)
    ensures |Gaps(g, n, n)| + Count(g) == n * n
  {
    GapsLength(g, n, n);
    assert g[..n] == g;
  }

  /** A square grid is full exactly when no cell is hidden. */
  lemma FullIffAllShown(g: seq<seq<bool>>, n: nat)
    requires IsSquare(g, n)
    ensures Count(g) <= n * n
    ensures Count(g) == n * n <==> forall r: nat, c: nat :: r < n && c < n ==> Shown(g, r, c)
  {
    GapsAndCount(g, n);
    GapsSpec(g, n, n);
    var gaps := Gaps(g, n, n);
    if |gaps| == 0 {
      forall r: nat, c: nat | r < n && c < n ensures Shown(g, r, c) {
        assert (r, c) !in gaps;
      }
    } else {
      assert gaps[0] in gaps;
    }
  }

  /** Scan of the first `n` rows and columns for hidden cells, row by row and
      column by column, appending each one found (a missing row or cell counts
      as hidden). */
  method CollectHidden(rows: seq<array<bool>>, n: nat) returns (ps: seq<(nat, nat)>)
    ensures ps == Gaps(Snapshot(rows), n, n)
  {
    ghost var g := Snapshot(rows);
    ps := [];
    var row := 0;
    while row < n
      invariant row <= n
      invariant ps == Gaps(g, n, row)
    {
      var col := 0;
      while col < n
        invariant col <= n
        invariant ps == Gaps(g, n, row) + RowGaps(g, row, col)
      {
        if !(row < |rows| && col < rows[row].Length && rows[row][col]) {
          ps := ps + [(row, col)];
        }
        col := col + 1;
      }
      row := row + 1;
    }
  }
}
