/** The tile-merge puzzle: a 4x4 grid of tile values (0 is an empty cell). Every
    arrow key is turned into a left slide by rotating the grid, sliding and
    merging each row, and rotating back; after a move that changed the grid a
    2 or a 4 appears in a random empty cell. */
module Game2048 {
  import opened Common

  const Size: nat := 4

  type Grid = seq<seq<int>>

  predicate IsGrid(g: Grid) {
    |g| == Size && forall y :: 0 <= y < Size ==> |g[y]| == Size
  }

  predicate InGrid(c: Position) {
    0 <= c.x < Size && 0 <= c.y < Size
  }

  /** `createEmptyGrid`. */
  function EmptyGrid(): (g: Grid)
    ensures IsGrid(g)
    ensures forall y, x :: 0 <= y < Size && 0 <= x < Size ==> g[y][x] == 0
  {
    seq(Size, _ => seq(Size, _ => 0))
  }

  // ---------------------------------------------------------------------------
  // Rotation
  // ---------------------------------------------------------------------------

  /** A quarter turn clockwise (see RotatedMovesCell). */
  function Rotated(g: Grid): (r: Grid)
    requires IsGrid(g)
    ensures IsGrid(r)
  {
    seq(Size, row requires 0 <= row < Size =>
      seq(Size, col requires 0 <= col < Size => g[Size - 1 - col][row]))
  }

  /** A quarter turn moves the tile in row y, column x to row x, column Size-1-y. */
  lemma RotatedMovesCell(g: Grid, y: int, x: int)
    requires IsGrid(g) && 0 <= y < Size && 0 <= x < Size
    ensures Rotated(g)[x][Size - 1 - y] == g[y][x]
  {
  }

  /** `rotateGrid`: fills a fresh empty grid cell by cell. */
  method RotateGrid(g: Grid) returns (rotated: Grid)
    requires IsGrid(g)
    ensures rotated == Rotated(g)
  {
    rotated := EmptyGrid();
    for y := 0 to Size
      invariant IsGrid(rotated)
      invariant forall r, c :: 0 <= r < Size && 0 <= c < Size ==>
        rotated[r][c] == if Size - 1 - c < y then g[Size - 1 - c][r] else 0
    {
      for x := 0 to Size
        invariant IsGrid(rotated)
        invariant forall r, c :: 0 <= r < Size && 0 <= c < Size ==>
          rotated[r][c] == if Size - 1 - c < y || (Size - 1 - c == y && r < x) then g[Size - 1 - c][r] else 0
      {
        rotated := rotated[x := rotated[x][Size - 1 - y := g[y][x]]];
      }
    }
    forall r | 0 <= r < Size
      ensures rotated[r] == Rotated(g)[r]
    {
    }
  }

  /** The grid after k quarter turns. */
  function RotatedTimes(g: Grid, k: nat): (r: Grid)
    requires IsGrid(g)
    ensures IsGrid(r)
  {
    if k == 0 then g else Rotated(RotatedTimes(g, k - 1))
  }

  /** Two quarter turns send row y, column x to row Size-1-y, column Size-1-x. */
  lemma HalfTurn(g: Grid)
    requires IsGrid(g)
    ensures forall y, x :: 0 <= y < Size && 0 <= x < Size ==>
      Rotated(Rotated(g))[Size - 1 - y][Size - 1 - x] == g[y][x]
  {
    var r1 := Rotated(g);
    var r2 := Rotated(r1);
    forall y, x | 0 <= y < Size && 0 <= x < Size
      ensures r2[Size - 1 - y][Size - 1 - x] == g[y][x]
    {
      assert r1[x][Size - 1 - y] == g[y][x];
      assert r2[Size - 1 - y][Size - 1 - x] == r1[x][Size - 1 - y];
    }
  }

  /** Four quarter turns give back the original grid. */
  lemma {:induction false} FullTurn(g: Grid)
    requires IsGrid(g)
    ensures RotatedTimes(g, 4) == g
  {
    var r2 := Rotated(Rotated(g));
    var r4 := Rotated(Rotated(r2));
    HalfTurn(g);
    HalfTurn(r2);
    assert RotatedTimes(g, 1) == Rotated(g);
    assert RotatedTimes(g, 2) == r2;
    assert RotatedTimes(g, 3) == Rotated(r2);
    assert RotatedTimes(g, 4) == r4;
    forall y | 0 <= y < Size
      ensures r4[y] == g[y]
    {
      forall x | 0 <= x < Size
        ensures r4[y][x] == g[y][x]
      {
        assert r2[Size - 1 - y][Size - 1 - x] == g[y][x];
        assert r4[y][x] == r2[Size - 1 - y][Size - 1 - x];
      }
    }
  }

  lemma {:induction false} TurnsAdd(g: Grid, a: nat, b: nat)
    requires IsGrid(g)
    ensures RotatedTimes(RotatedTimes(g, a), b) == RotatedTimes(g, a + b)
    decreases b
  {
    if b > 0 {
      TurnsAdd(g, a, b - 1);
    }
  }

  /** `move` turns k times before the slide and (4 - k) % 4 times after it: the
      turns add up to a whole number of full turns, so they cancel. */
  lemma TurnsCancel(g: Grid, k: nat)
    requires IsGrid(g) && k < 4
    ensures RotatedTimes(RotatedTimes(g, k), (4 - k) % 4) == g
  {
    var back := (4 - k) % 4;
    if k == 0 {
      assert back == 0;
      assert RotatedTimes(RotatedTimes(g, 0), 0) == g;
    } else {
      assert back == 4 - k;
      TurnsAdd(g, k, back);
      FullTurn(g);
    }
  }

  /** Turning is one-to-one. */
  lemma TurnsInjective(a: Grid, b: Grid, k: nat)
    requires IsGrid(a) && IsGrid(b) && k < 4
    requires RotatedTimes(a, k) == RotatedTimes(b, k)
    ensures a == b
  {
    TurnsCancel(a, k);
    TurnsCancel(b, k);
  }

  // ---------------------------------------------------------------------------
  // The row pass
  // ---------------------------------------------------------------------------

  function Sum(s: seq<int>): int {
    if s == [] then 0 else s[0] + Sum(s[1..])
  }

  /** `row.filter(tile => tile !== 0)`. */
  function NonZero(row: seq<int>): (tiles: seq<int>)
    ensures |tiles| <= |row|
    ensures forall i :: 0 <= i < |tiles| ==> tiles[i] != 0
  {
    if row == [] then [] else (if row[0] == 0 then [] else [row[0]]) + NonZero(row[1..])
  }

  /** The merge scan of `move`: a tile equal to the next one is replaced by
      their double and the next one is skipped, so a merged tile takes part in
      no further merge. */
  function Merged(tiles: seq<int>): (r: seq<int>)
    ensures |r| <= |tiles|
    ensures (forall i :: 0 <= i < |tiles| ==> tiles[i] != 0) ==> forall i :: 0 <= i < |r| ==> r[i] != 0
    ensures (forall i :: 0 <= i < |tiles| ==> tiles[i] > 0) ==> forall i :: 0 <= i < |r| ==> r[i] > 0
    decreases |tiles|
  {
    if |tiles| == 0 then []
    else if |tiles| >= 2 && tiles[0] == tiles[1] then [tiles[0] * 2] + Merged(tiles[2..])
    else [tiles[0]] + Merged(tiles[1..])
  }

  /** The score of the merge scan: the sum of the values the merges create. */
  function Gain(tiles: seq<int>): int
    decreases |tiles|
  {
    if |tiles| == 0 then 0
    else if |tiles| >= 2 && tiles[0] == tiles[1] then tiles[0] * 2 + Gain(tiles[2..])
    else Gain(tiles[1..])
  }

  function Zeros(n: nat): seq<int> {
    seq(n, _ => 0)
  }

  /** The merged tiles followed by zeros up to the grid width. */
  function Padded(merged: seq<int>): (r: seq<int>)
    requires |merged| <= Size
    ensures |r| == Size
  {
    merged + Zeros(Size - |merged|)
  }

  /** One row after the pass: the merged tiles, then zeros up to the grid width. */
  function SlidRow(row: seq<int>): (r: seq<int>)
    requires |row| <= Size
    ensures |r| == Size
  {
    Padded(Merged(NonZero(row)))
  }

  /** No zero before a non-zero tile. */
  predicate Packed(r: seq<int>) {
    forall i, j :: 0 <= i < j < |r| && r[i] == 0 ==> r[j] == 0
  }

  /** After the pass a row has the grid width, holds the non-zero tiles first
      (the merged tiles, in order) and zeros after them. */
  lemma RowPassShape(row: seq<int>)
    requires |row| <= Size
    ensures |SlidRow(row)| == Size && Packed(SlidRow(row))
    ensures SlidRow(row)[..|Merged(NonZero(row))|] == Merged(NonZero(row))
    ensures forall i :: 0 <= i < |Merged(NonZero(row))| ==> SlidRow(row)[i] != 0
  {
    var merged := Merged(NonZero(row));
    var r := SlidRow(row);
    assert r[..|merged|] == merged;
    assert forall i :: 0 <= i < |merged| ==> r[i] == merged[i] && r[i] != 0;
    assert forall i :: |merged| <= i < |r| ==> r[i] == 0;
  }

  /** A run of three equal tiles merges once, at the end the row slides
      toward: [2,2,2,0] gives [4,2,0,0]. */
  lemma ThreeEqualTilesMergeOnce()
    ensures SlidRow([2, 2, 2, 0]) == [4, 2, 0, 0]
  {
    assert NonZero([0]) == [] by { assert [0][1..] == []; }
    assert NonZero([2, 0]) == [2] by { assert [2, 0][1..] == [0]; }
    assert NonZero([2, 2, 0]) == [2, 2] by { assert [2, 2, 0][1..] == [2, 0]; }
    assert NonZero([2, 2, 2, 0]) == [2, 2, 2] by { assert [2, 2, 2, 0][1..] == [2, 2, 0]; }
    assert Merged([2]) == [2] by { assert [2][1..] == []; }
    assert Merged([2, 2, 2]) == [4, 2] by { assert [2, 2, 2][2..] == [2]; }
    assert Zeros(2) == [0, 0];
    assert SlidRow([2, 2, 2, 0]) == [4, 2] + [0, 0];
  }

  /** Four equal tiles merge pairwise, and the doubled tiles do not merge
      again: [2,2,2,2] gives [4,4,0,0]. */
  lemma FourEqualTilesMergePairwise()
    ensures SlidRow([2, 2, 2, 2]) == [4, 4, 0, 0]
  {
    assert NonZero([2]) == [2] by { assert [2][1..] == []; }
    assert NonZero([2, 2]) == [2, 2] by { assert [2, 2][1..] == [2]; }
    assert NonZero([2, 2, 2]) == [2, 2, 2] by { assert [2, 2, 2][1..] == [2, 2]; }
    assert NonZero([2, 2, 2, 2]) == [2, 2, 2, 2] by { assert [2, 2, 2, 2][1..] == [2, 2, 2]; }
    assert Merged([2, 2]) == [4] by { assert [2, 2][2..] == []; }
    assert Merged([2, 2, 2, 2]) == [4, 4] by { assert [2, 2, 2, 2][2..] == [2, 2]; }
    assert Zeros(2) == [0, 0];
    assert SlidRow([2, 2, 2, 2]) == [4, 4] + [0, 0];
  }

  lemma {:induction false} SumConcat(a: seq<int>, b: seq<int>)
    ensures Sum(a + b) == Sum(a) + Sum(b)
    decreases |a|
  {
    if a == [] {
      assert a + b == b;
    } else {
      assert (a + b)[0] == a[0];
      assert (a + b)[1..] == a[1..] + b;
      SumConcat(a[1..], b);
    }
  }

  lemma {:induction false} SumZeros(n: nat)
    ensures Sum(Zeros(n)) == 0
  {
    if n > 0 {
      assert Zeros(n)[1..] == Zeros(n - 1);
      SumZeros(n - 1);
    }
  }

  lemma {:induction false} NonZeroKeepsSum(row: seq<int>)
    ensures Sum(NonZero(row)) == Sum(row)
    decreases |row|
  {
    if row != [] {
      NonZeroKeepsSum(row[1..]);
      SumConcat(if row[0] == 0 then [] else [row[0]], NonZero(row[1..]));
    }
  }

  lemma {:induction false} MergeKeepsSum(tiles: seq<int>)
    ensures Sum(Merged(tiles)) == Sum(tiles)
    decreases |tiles|
  {
    if |tiles| >= 2 && tiles[0] == tiles[1] {
      MergeKeepsSum(tiles[2..]);
      SumConcat([tiles[0] * 2], Merged(tiles[2..]));
      assert tiles[1..][1..] == tiles[2..];
    } else if |tiles| > 0 {
      MergeKeepsSum(tiles[1..]);
      SumConcat([tiles[0]], Merged(tiles[1..]));
    }
  }

  /** Padding with zeros keeps the sum. */
  lemma PaddedSum(a: seq<int>)
    requires |a| <= Size
    ensures Sum(Padded(a)) == Sum(a)
  {
    SumConcat(a, Zeros(Size - |a|));
    SumZeros(Size - |a|);
  }

  /** The row pass keeps the sum of the tile values. */
  lemma RowPassKeepsSum(row: seq<int>)
    requires |row| <= Size
    ensures Sum(SlidRow(row)) == Sum(row)
  {
    MergeKeepsSum(NonZero(row));
    NonZeroKeepsSum(row);
    PaddedSum(Merged(NonZero(row)));
  }

  /** Each tile takes part in at most one merge: the values the merges create
      add up to no more than the tiles they came from, and they add up to zero
      exactly when nothing merged. (Merging a merged tile again, as in
      [2, 2, 4] giving 8, would score 4 + 8 = 12 > 8.) */
  lemma {:induction false} GainSingleMerge(tiles: seq<int>)
    requires forall i :: 0 <= i < |tiles| ==> tiles[i] > 0
    ensures 0 <= Gain(tiles) <= Sum(tiles)
    ensures Gain(tiles) == 0 <==> |Merged(tiles)| == |tiles|
    decreases |tiles|
  {
    if |tiles| >= 2 && tiles[0] == tiles[1] {
      GainSingleMerge(tiles[2..]);
      assert tiles[1..][1..] == tiles[2..];
      assert Sum(tiles) == tiles[0] + tiles[1] + Sum(tiles[2..]);
    } else if |tiles| > 0 {
      GainSingleMerge(tiles[1..]);
    }
  }

  // ---------------------------------------------------------------------------
  // The move
  // ---------------------------------------------------------------------------

  /** Every row after the pass. */
  function SlidLeft(g: Grid): (r: Grid)
    requires IsGrid(g)
    ensures IsGrid(r)
  {
    seq(Size, y requires 0 <= y < Size => SlidRow(g[y]))
  }

  /** The score of the pass over the first n rows. */
  function RowsGain(g: Grid, n: nat): int
    requires IsGrid(g) && n <= Size
  {
    if n == 0 then 0 else RowsGain(g, n - 1) + Gain(NonZero(g[n - 1]))
  }

  /** The number of quarter turns `move` makes before the slide. */
  function Turns(d: Direction): (k: nat)
    ensures k < 4
  {
    match d
    case Left => 0
    case Up => 1
    case Right => 2
    case Down => 3
  }

  /** The grid `move` returns after k turns, the row pass and (4 - k) % 4 turns. */
  function Slide(g: Grid, k: nat): (r: Grid)
    requires IsGrid(g) && k < 4
    ensures IsGrid(r)
  {
    RotatedTimes(SlidLeft(RotatedTimes(g, k)), (4 - k) % 4)
  }

  /** The `scoreGained` of `move` after k turns. */
  function SlideGain(g: Grid, k: nat): int
    requires IsGrid(g) && k < 4
  {
    RowsGain(RotatedTimes(g, k), Size)
  }

  /** The move changes the grid exactly when the pass changes a row of the
      turned grid. */
  lemma SlideChanges(g: Grid, k: nat)
    requires IsGrid(g) && k < 4
    ensures Slide(g, k) != g <==> SlidLeft(RotatedTimes(g, k)) != RotatedTimes(g, k)
  {
    var turned := RotatedTimes(g, k);
    TurnsCancel(g, k);
    if Slide(g, k) == g {
      TurnsInjective(SlidLeft(turned), turned, (4 - k) % 4);
    }
  }

  /** Associativity of concatenation, stated so that the merge scan's
      invariant can be re-associated; it models nothing of the game. */
  lemma AppendAssoc(a: seq<int>, b: seq<int>, c: seq<int>)
    ensures a + b + c == a + (b + c)
  {
  }

  /** One step of the merge scan at position i. */
  lemma MergeStep(row: seq<int>, i: nat)
    requires i < |row|
    ensures i + 1 < |row| && row[i] == row[i + 1] ==>
      Merged(row[i..]) == [row[i] * 2] + Merged(row[i + 2..]) && Gain(row[i..]) == row[i] * 2 + Gain(row[i + 2..])
    ensures !(i + 1 < |row| && row[i] == row[i + 1]) ==>
      Merged(row[i..]) == [row[i]] + Merged(row[i + 1..]) && Gain(row[i..]) == Gain(row[i + 1..])
  {
    assert row[i..][1..] == row[i + 1..];
    if i + 1 < |row| {
      assert row[i..][2..] == row[i + 2..];
    }
  }

  /** The merge scan of `move`'s loop over the rows: pushes a doubled tile and
      skips the next one when two neighbours are equal, and adds the doubled
      value to the score. */
  method MergeScan(row: seq<int>) returns (newRow: seq<int>, gained: int)
    ensures newRow == Merged(row)
    ensures gained == Gain(row)
  {
    newRow := [];
    gained := 0;
    var i := 0;
    while i < |row|
      invariant 0 <= i <= |row|
      invariant newRow + Merged(row[i..]) == Merged(row)
      invariant gained + Gain(row[i..]) == Gain(row)
    {
      MergeStep(row, i);
      if i + 1 < |row| && row[i] == row[i + 1] {
        var newValue := row[i] * 2;
        AppendAssoc(newRow, [newValue], Merged(row[i + 2..]));
        newRow := newRow + [newValue];
        gained := gained + newValue;
        i := i + 2;
      } else {
        AppendAssoc(newRow, [row[i]], Merged(row[i + 1..]));
        newRow := newRow + [row[i]];
        i := i + 1;
      }
    }
    assert row[i..] == [];
  }

  /** Pushes zeros until the row has the grid width. */
  method PadRow(merged: seq<int>) returns (newRow: seq<int>)
    requires |merged| <= Size
    ensures newRow == Padded(merged)
  {
    newRow := merged;
    while |newRow| < Size
      invariant |merged| <= |newRow| <= Size
      invariant newRow == merged + Zeros(|newRow| - |merged|)
    {
      assert Zeros(|newRow| + 1 - |merged|) == Zeros(|newRow| - |merged|) + [0];
      newRow := newRow + [0];
    }
  }

  /** The body of `move`'s loop over the rows: drop the empty cells, merge,
      pad with zeros, and report the merge score. */
  method PassRow(originalRow: seq<int>) returns (newRow: seq<int>, gained: int)
    requires |originalRow| == Size
    ensures newRow == SlidRow(originalRow)
    ensures gained == Gain(NonZero(originalRow))
  {
    var row := NonZero(originalRow);
    var merged;
    merged, gained := MergeScan(row);
    newRow := PadRow(merged);
  }

  /** `move` as written: the rotation table, then the turned slide. */
  method Move(grid: Grid, direction: Direction) returns (newGrid: Grid, scoreGained: int, moved: bool)
    requires IsGrid(grid)
    ensures newGrid == Slide(grid, Turns(direction))
    ensures scoreGained == SlideGain(grid, Turns(direction))
    ensures moved <==> newGrid != grid
  {
    var rotations := 0;
    if direction == Up { rotations := 1; }
    if direction == Right { rotations := 2; }
    if direction == Down { rotations := 3; }
    assert rotations == Turns(direction);
    newGrid, scoreGained, moved := MoveTurned(grid, rotations);
  }

  /** The body of `move` after the rotation count is chosen: turn, slide every
      row left, turn back, adding up the merge scores and noting any change. */
  method MoveTurned(grid: Grid, rotations: nat) returns (newGrid: Grid, scoreGained: int, moved: bool)
    requires IsGrid(grid) && rotations < 4
    ensures newGrid == Slide(grid, rotations)
    ensures scoreGained == SlideGain(grid, rotations)
    ensures moved <==> newGrid != grid
  {
    newGrid := grid;
    for i := 0 to rotations
      invariant newGrid == RotatedTimes(grid, i)
    {
      newGrid := RotateGrid(newGrid);
    }

    ghost var turned := newGrid;
    newGrid, scoreGained, moved := PassRows(newGrid);
    SlideChanges(grid, rotations);
    assert moved <==> SlidLeft(turned) != turned;

    for i := 0 to (4 - rotations) % 4
      invariant newGrid == RotatedTimes(SlidLeft(turned), i)
    {
      newGrid := RotateGrid(newGrid);
    }
  }

  /** Some row among the first n differs between grids a and b. */
  predicate RowsDiffer(a: Grid, b: Grid, n: nat)
    requires IsGrid(a) && IsGrid(b) && n <= Size
  {
    n > 0 && (RowsDiffer(a, b, n - 1) || a[n - 1] != b[n - 1])
  }

  /** Two grids differ exactly when one of their rows does. */
  lemma GridsDiffer(a: Grid, b: Grid)
    requires IsGrid(a) && IsGrid(b)
    ensures RowsDiffer(a, b, Size) <==> a != b
  {
    RowsDifferExact(a, b, Size);
    if a != b {
      assert exists j :: 0 <= j < Size && a[j] != b[j];
    }
  }

  /** The flag set row by row is set exactly when some row among the first n differs. */
  lemma {:induction false} RowsDifferExact(a: Grid, b: Grid, n: nat)
    requires IsGrid(a) && IsGrid(b) && n <= Size
    ensures RowsDiffer(a, b, n) <==> exists j :: 0 <= j < n && a[j] != b[j]
  {
    if n > 0 {
      RowsDifferExact(a, b, n - 1);
      if !RowsDiffer(a, b, n - 1) && a[n - 1] != b[n - 1] {
        assert 0 <= n - 1 < n && a[n - 1] != b[n - 1];
      }
    }
  }

  /** `move`'s loop over the rows: each row is replaced by its pass, the merge
      scores are added up, and `moved` is set when some row changed. */
  method PassRows(grid: Grid) returns (newGrid: Grid, scoreGained: int, moved: bool)
    requires IsGrid(grid)
    ensures newGrid == SlidLeft(grid)
    ensures scoreGained == RowsGain(grid, Size)
    ensures moved <==> newGrid != grid
  {
    newGrid := grid;
    scoreGained := 0;
    moved := false;
    for y := 0 to Size
      invariant |newGrid| == Size
      invariant forall j :: 0 <= j < y ==> newGrid[j] == SlidLeft(grid)[j]
      invariant forall j :: y <= j < Size ==> newGrid[j] == grid[j]
      invariant scoreGained == RowsGain(grid, y)
      invariant moved == RowsDiffer(SlidLeft(grid), grid, y)
    {
      var originalRow := newGrid[y];
      var newRow, gained := PassRow(originalRow);
      assert SlidLeft(grid)[y] == newRow;
      assert RowsGain(grid, y + 1) == RowsGain(grid, y) + gained;
      scoreGained := scoreGained + gained;
      if newRow != originalRow {
        moved := true;
      }
      newGrid := newGrid[y := newRow];
    }
    assert newGrid == SlidLeft(grid);
    GridsDiffer(newGrid, grid);
  }

  // ---------------------------------------------------------------------------
  // Conservation of the tile total and of non-negative tiles
  // ---------------------------------------------------------------------------

  function GridSum(g: Grid): int
    requires IsGrid(g)
  {
    Sum(g[0]) + Sum(g[1]) + Sum(g[2]) + Sum(g[3])
  }

  lemma Sum4(r: seq<int>)
    requires |r| == 4
    ensures Sum(r) == r[0] + r[1] + r[2] + r[3]
  {
    assert r[1..][1..] == r[2..];
    assert r[2..][1..] == r[3..];
    assert r[3..][1..] == [];
    assert Sum(r[3..]) == r[3];
    assert Sum(r[2..]) == r[2] + r[3];
    assert Sum(r[1..]) == r[1] + r[2] + r[3];
  }

  lemma RotationKeepsTotal(g: Grid)
    requires IsGrid(g)
    ensures GridSum(Rotated(g)) == GridSum(g)
  {
    var r := Rotated(g);
    Sum4(g[0]); Sum4(g[1]); Sum4(g[2]); Sum4(g[3]);
    Sum4(r[0]); Sum4(r[1]); Sum4(r[2]); Sum4(r[3]);
  }

  lemma {:induction false} TurnsKeepTotal(g: Grid, k: nat)
    requires IsGrid(g)
    ensures GridSum(RotatedTimes(g, k)) == GridSum(g)
  {
    if k > 0 {
      TurnsKeepTotal(g, k - 1);
      RotationKeepsTotal(RotatedTimes(g, k - 1));
    }
  }

  /** A move keeps the sum of all tile values: merging adds two tiles into one. */
  lemma SlideKeepsTotal(g: Grid, k: nat)
    requires IsGrid(g) && k < 4
    ensures GridSum(Slide(g, k)) == GridSum(g)
  {
    var turned := RotatedTimes(g, k);
    TurnsKeepTotal(g, k);
    PassKeepsTotal(turned);
    TurnsKeepTotal(SlidLeft(turned), (4 - k) % 4);
  }

  /** The pass over all rows keeps the sum of all tiles. */
  lemma PassKeepsTotal(g: Grid)
    requires IsGrid(g)
    ensures GridSum(SlidLeft(g)) == GridSum(g)
  {
    var r := SlidLeft(g);
    assert r[0] == SlidRow(g[0]) && r[1] == SlidRow(g[1]);
    assert r[2] == SlidRow(g[2]) && r[3] == SlidRow(g[3]);
    RowPassKeepsSum(g[0]);
    RowPassKeepsSum(g[1]);
    RowPassKeepsSum(g[2]);
    RowPassKeepsSum(g[3]);
  }

  predicate NoNegative(g: Grid)
    requires IsGrid(g)
  {
    forall y, x :: 0 <= y < Size && 0 <= x < Size ==> g[y][x] >= 0
  }

  lemma {:induction false} NonZeroPositive(row: seq<int>)
    requires forall i :: 0 <= i < |row| ==> row[i] >= 0
    ensures forall i :: 0 <= i < |NonZero(row)| ==> NonZero(row)[i] > 0
    decreases |row|
  {
    if row != [] {
      NonZeroPositive(row[1..]);
    }
  }

  lemma {:induction false} TurnsKeepNoNegative(g: Grid, k: nat)
    requires IsGrid(g) && NoNegative(g)
    ensures NoNegative(RotatedTimes(g, k))
  {
    if k > 0 {
      TurnsKeepNoNegative(g, k - 1);
    }
  }

  lemma {:induction false} RowsGainNonNegative(g: Grid, n: nat)
    requires IsGrid(g) && NoNegative(g) && n <= Size
    ensures RowsGain(g, n) >= 0
  {
    if n > 0 {
      RowsGainNonNegative(g, n - 1);
      NonZeroPositive(g[n - 1]);
      GainSingleMerge(NonZero(g[n - 1]));
    }
  }

  /** On a grid without negative values, a move never lowers the score and
      leaves no negative value behind. */
  lemma SlideNonNegative(g: Grid, k: nat)
    requires IsGrid(g) && NoNegative(g) && k < 4
    ensures SlideGain(g, k) >= 0
    ensures NoNegative(Slide(g, k))
  {
    var turned := RotatedTimes(g, k);
    TurnsKeepNoNegative(g, k);
    RowsGainNonNegative(turned, Size);
    SlidLeftNoNegative(turned);
    TurnsKeepNoNegative(SlidLeft(turned), (4 - k) % 4);
  }

  /** The row pass turns non-negative rows into non-negative rows. */
  lemma SlidLeftNoNegative(g: Grid)
    requires IsGrid(g) && NoNegative(g)
    ensures NoNegative(SlidLeft(g))
  {
    forall y | 0 <= y < Size
      ensures forall x :: 0 <= x < Size ==> SlidLeft(g)[y][x] >= 0
    {
      SlidRowNonNegative(g[y]);
    }
  }

  lemma SlidRowNonNegative(row: seq<int>)
    requires |row| <= Size && forall i :: 0 <= i < |row| ==> row[i] >= 0
    ensures forall i :: 0 <= i < Size ==> SlidRow(row)[i] >= 0
  {
    NonZeroPositive(row);
    var merged := Merged(NonZero(row));
    var r := SlidRow(row);
    assert forall i :: 0 <= i < |merged| ==> r[i] == merged[i];
    assert forall i :: |merged| <= i < Size ==> r[i] == 0;
  }

  // ---------------------------------------------------------------------------
  // Game over
  // ---------------------------------------------------------------------------

  /** No cell of row `upper` equals the cell below it in row `lower`. */
  predicate NoVerticalPair(upper: seq<int>, lower: seq<int>)
    requires |upper| == |lower|
  {
    forall x :: 0 <= x < |upper| ==> lower[x] != upper[x]
  }

  /** No empty cell and no two equal neighbours in a column or in a row. */
  predicate Stuck(g: Grid)
    requires IsGrid(g)
  {
    && (forall y, x :: 0 <= y < Size && 0 <= x < Size ==> g[y][x] != 0)
    && (forall y :: 0 <= y < Size - 1 ==> NoVerticalPair(g[y], g[y + 1]))
    && (forall y, x :: 0 <= y < Size && 0 <= x < Size - 1 ==> g[y][x + 1] != g[y][x])
  }

  /** `isGameOver`. */
  method IsGameOver(grid: Grid) returns (over: bool)
    requires IsGrid(grid)
    ensures over == Stuck(grid)
  {
    for y := 0 to Size
      invariant forall y', x :: 0 <= y' < y && 0 <= x < Size ==> grid[y'][x] != 0
    {
      for x := 0 to Size
        invariant forall x' :: 0 <= x' < x ==> grid[y][x'] != 0
      {
        if grid[y][x] == 0 {
          return false;
        }
      }
    }
    for y := 0 to Size
      invariant forall y' :: 0 <= y' < y && y' < Size - 1 ==> NoVerticalPair(grid[y'], grid[y' + 1])
      invariant forall y', x :: 0 <= y' < y && 0 <= x < Size - 1 ==> grid[y'][x + 1] != grid[y'][x]
    {
      for x := 0 to Size
        invariant forall x' :: 0 <= x' < x && y < Size - 1 ==> grid[y + 1][x'] != grid[y][x']
        invariant forall x' :: 0 <= x' < x && x' < Size - 1 ==> grid[y][x' + 1] != grid[y][x']
      {
        var current := grid[y][x];
        if y < Size - 1 && grid[y + 1][x] == current {
          return false;
        }
        if x < Size - 1 && grid[y][x + 1] == current {
          return false;
        }
      }
    }
    return true;
  }

  lemma StuckRotated(g: Grid)
    requires IsGrid(g) && Stuck(g)
    ensures Stuck(Rotated(g))
  {
    var r := Rotated(g);
    forall y | 0 <= y < Size - 1
      ensures NoVerticalPair(r[y], r[y + 1])
    {
      forall x | 0 <= x < Size
        ensures r[y + 1][x] != r[y][x]
      {
        assert r[y + 1][x] == g[Size - 1 - x][y + 1];
        assert r[y][x] == g[Size - 1 - x][y];
      }
    }
    forall y, x | 0 <= y < Size && 0 <= x < Size - 1
      ensures r[y][x + 1] != r[y][x]
    {
      assert r[y][x + 1] == g[Size - 1 - (x + 1)][y];
      assert r[y][x] == g[Size - 1 - (x + 1) + 1][y];
      assert NoVerticalPair(g[Size - 1 - (x + 1)], g[Size - 1 - (x + 1) + 1]);
    }
  }

  lemma {:induction false} StuckTurns(g: Grid, k: nat)
    requires IsGrid(g) && Stuck(g)
    ensures Stuck(RotatedTimes(g, k))
  {
    if k > 0 {
      StuckTurns(g, k - 1);
      StuckRotated(RotatedTimes(g, k - 1));
    }
  }

  lemma {:induction false} NonZeroOfFullRow(row: seq<int>)
    requires forall i :: 0 <= i < |row| ==> row[i] != 0
    ensures NonZero(row) == row
    decreases |row|
  {
    if row != [] {
      NonZeroOfFullRow(row[1..]);
    }
  }

  lemma {:induction false} NoMergeWithoutPairs(tiles: seq<int>)
    requires forall i :: 0 <= i < |tiles| - 1 ==> tiles[i + 1] != tiles[i]
    ensures Merged(tiles) == tiles && Gain(tiles) == 0
    decreases |tiles|
  {
    if tiles != [] {
      NoMergeWithoutPairs(tiles[1..]);
    }
  }

  lemma StuckPassFixed(g: Grid)
    requires IsGrid(g) && Stuck(g)
    ensures SlidLeft(g) == g
    ensures forall n :: 0 <= n <= Size ==> RowsGain(g, n) == 0
  {
    forall y | 0 <= y < Size
      ensures SlidRow(g[y]) == g[y] && Gain(NonZero(g[y])) == 0
    {
      NonZeroOfFullRow(g[y]);
      NoMergeWithoutPairs(g[y]);
    }
    forall n | 0 <= n <= Size
      ensures RowsGain(g, n) == 0
    {
      NoGainRows(g, n);
    }
  }

  /** When no row scores, the first n rows together score nothing. */
  lemma {:induction false} NoGainRows(g: Grid, n: nat)
    requires IsGrid(g) && n <= Size
    requires forall y :: 0 <= y < Size ==> Gain(NonZero(g[y])) == 0
    ensures RowsGain(g, n) == 0
  {
    if n > 0 {
      NoGainRows(g, n - 1);
    }
  }

  /** On a stuck grid no direction moves a tile or scores. */
  lemma StuckNoMove(g: Grid, k: nat)
    requires IsGrid(g) && Stuck(g) && k < 4
    ensures Slide(g, k) == g && SlideGain(g, k) == 0
  {
    StuckTurns(g, k);
    StuckPassFixed(RotatedTimes(g, k));
    TurnsCancel(g, k);
  }

  // ---------------------------------------------------------------------------
  // The new tile
  // ---------------------------------------------------------------------------

  /** The empty cells of row y left of column x, left to right. */
  function EmptyInRow(g: Grid, y: nat, x: nat): (cells: seq<Position>)
    requires IsGrid(g) && y < Size && x <= Size
  {
    if x == 0 then []
    else EmptyInRow(g, y, x - 1) + (if g[y][x - 1] == 0 then [Position(x - 1, y)] else [])
  }

  /** The empty cells of the rows above row y, in row-major order. */
  function EmptyInRows(g: Grid, y: nat): (cells: seq<Position>)
    requires IsGrid(g) && y <= Size
  {
    if y == 0 then [] else EmptyInRows(g, y - 1) + EmptyInRow(g, y - 1, Size)
  }

  /** Row y's part of the list holds exactly the empty cells left of column x. */
  lemma {:induction false} EmptyInRowExact(g: Grid, y: nat, x: nat)
    requires IsGrid(g) && y < Size && x <= Size
    ensures forall c :: c in EmptyInRow(g, y, x) <==> c.y == y && 0 <= c.x < x && g[y][c.x] == 0
  {
    if x > 0 {
      EmptyInRowExact(g, y, x - 1);
    }
  }

  /** The list for the rows above row y holds exactly their empty cells. */
  lemma {:induction false} EmptyInRowsExact(g: Grid, y: nat)
    requires IsGrid(g) && y <= Size
    ensures forall c :: c in EmptyInRows(g, y) <==> InGrid(c) && c.y < y && g[c.y][c.x] == 0
  {
    if y > 0 {
      EmptyInRowsExact(g, y - 1);
      EmptyInRowExact(g, y - 1, Size);
    }
  }

  /** The list of empty cells `getRandomEmptyCell` collects. */
  function EmptyCells(g: Grid): (cells: seq<Position>)
    requires IsGrid(g)
  {
    EmptyInRows(g, Size)
  }

  predicate NoEmptyCell(g: Grid)
    requires IsGrid(g)
  {
    forall y, x :: 0 <= y < Size && 0 <= x < Size ==> g[y][x] != 0
  }

  /** The list holds exactly the empty cells, so it is empty exactly when the
      grid is full. */
  lemma EmptyCellsExact(g: Grid)
    requires IsGrid(g)
    ensures forall c :: c in EmptyCells(g) <==> InGrid(c) && g[c.y][c.x] == 0
    ensures EmptyCells(g) == [] <==> NoEmptyCell(g)
  {
    EmptyInRowsExact(g, Size);
    if !NoEmptyCell(g) {
      var y, x :| 0 <= y < Size && 0 <= x < Size && g[y][x] == 0;
      assert Position(x, y) in EmptyCells(g);
    }
    if EmptyCells(g) != [] {
      assert EmptyCells(g)[0] in EmptyCells(g);
    }
  }

  /** `getRandomEmptyCell`, with `roll` standing for the value of `Math.random()`. */
  method GetRandomEmptyCell(grid: Grid, roll: real) returns (cell: Option<Position>)
    requires IsGrid(grid) && 0.0 <= roll < 1.0
    ensures cell.None? <==> NoEmptyCell(grid)
    ensures cell.Some? ==> InGrid(cell.value) && grid[cell.value.y][cell.value.x] == 0
    ensures cell.Some? ==>
      |EmptyCells(grid)| > 0 && cell.value == EmptyCells(grid)[RandomIndex(roll, |EmptyCells(grid)|)]
  {
    var emptyCells: seq<Position> := [];
    for y := 0 to Size
      invariant emptyCells == EmptyInRows(grid, y)
    {
      for x := 0 to Size
        invariant emptyCells == EmptyInRows(grid, y) + EmptyInRow(grid, y, x)
      {
        if grid[y][x] == 0 {
          emptyCells := emptyCells + [Position(x, y)];
        }
      }
    }
    EmptyCellsExact(grid);
    if |emptyCells| == 0 {
      return None;
    }
    cell := Some(emptyCells[RandomIndex(roll, |emptyCells|)]);
  }

  /** `Math.random() < 0.9 ? 2 : 4`. */
  function TileValue(roll: real): (v: int)
    ensures v == 2 || v == 4
    ensures v == 2 <==> roll < 0.9
  {
    if roll < 0.9 then 2 else 4
  }

  /** The grid `addRandomTile` returns. */
  function WithTile(g: Grid, cellRoll: real, valueRoll: real): (r: Grid)
    requires IsGrid(g) && 0.0 <= cellRoll < 1.0
    ensures IsGrid(r)
  {
    var cells := EmptyCells(g);
    if cells == [] then g
    else
      var c := cells[RandomIndex(cellRoll, |cells|)];
      EmptyCellsExact(g);
      assert c in cells;
      g[c.y := g[c.y][c.x := TileValue(valueRoll)]]
  }

  /** The new tile went into cell c: that cell was empty and now holds a 2 or
      a 4, and every other cell is as it was. */
  predicate SpawnedAt(g: Grid, r: Grid, c: Position)
    requires IsGrid(g) && IsGrid(r)
  {
    && InGrid(c) && g[c.y][c.x] == 0
    && (r[c.y][c.x] == 2 || r[c.y][c.x] == 4)
    && forall y, x :: 0 <= y < Size && 0 <= x < Size && (y != c.y || x != c.x) ==> r[y][x] == g[y][x]
  }

  /** `addRandomTile` changes exactly one cell, from empty to 2 or 4, when the
      grid has an empty cell, and changes nothing on a full grid. */
  lemma SpawnChangesOneCell(g: Grid, cellRoll: real, valueRoll: real)
    requires IsGrid(g) && 0.0 <= cellRoll < 1.0
    ensures NoEmptyCell(g) ==> WithTile(g, cellRoll, valueRoll) == g
    ensures !NoEmptyCell(g) ==> exists c :: SpawnedAt(g, WithTile(g, cellRoll, valueRoll), c)
  {
    EmptyCellsExact(g);
    var cells := EmptyCells(g);
    if cells != [] {
      var c := cells[RandomIndex(cellRoll, |cells|)];
      assert c in cells;
      assert SpawnedAt(g, WithTile(g, cellRoll, valueRoll), c);
    }
  }

  /** The new tile is a 2 or a 4, so no negative value appears. */
  lemma SpawnKeepsNoNegative(g: Grid, cellRoll: real, valueRoll: real)
    requires IsGrid(g) && 0.0 <= cellRoll < 1.0 && NoNegative(g)
    ensures NoNegative(WithTile(g, cellRoll, valueRoll))
  {
  }

  /** `addRandomTile`: copies the grid and writes the new tile into one cell. */
  method AddRandomTile(grid: Grid, cellRoll: real, valueRoll: real) returns (newGrid: Grid)
    requires IsGrid(grid) && 0.0 <= cellRoll < 1.0 && 0.0 <= valueRoll < 1.0
    ensures newGrid == WithTile(grid, cellRoll, valueRoll)
  {
    newGrid := grid;
    var cell := GetRandomEmptyCell(newGrid, cellRoll);
    EmptyCellsExact(grid);
    if cell.Some? {
      newGrid := newGrid[cell.value.y := newGrid[cell.value.y][cell.value.x := TileValue(valueRoll)]];
    }
  }

  /** The grid the game starts with: two tiles added to an empty grid. */
  function StartGrid(cellRoll1: real, valueRoll1: real, cellRoll2: real, valueRoll2: real): (g: Grid)
    requires 0.0 <= cellRoll1 < 1.0 && 0.0 <= cellRoll2 < 1.0
    ensures IsGrid(g) && NoNegative(g)
  {
    var empty := EmptyGrid();
    var g1 := WithTile(empty, cellRoll1, valueRoll1);
    assert NoNegative(g1) by {
      assert NoNegative(empty);
      SpawnKeepsNoNegative(empty, cellRoll1, valueRoll1);
    }
    SpawnKeepsNoNegative(g1, cellRoll2, valueRoll2);
    WithTile(g1, cellRoll2, valueRoll2)
  }

  /** The start grid of `useState(addRandomTile(addRandomTile(createEmptyGrid())))`. */
  method InitialGrid(cellRoll1: real, valueRoll1: real, cellRoll2: real, valueRoll2: real) returns (g: Grid)
    requires 0.0 <= cellRoll1 < 1.0 && 0.0 <= valueRoll1 < 1.0
    requires 0.0 <= cellRoll2 < 1.0 && 0.0 <= valueRoll2 < 1.0
    ensures g == StartGrid(cellRoll1, valueRoll1, cellRoll2, valueRoll2)
  {
    var empty := EmptyGrid();
    var g1 := AddRandomTile(empty, cellRoll1, valueRoll1);
    g := AddRandomTile(g1, cellRoll2, valueRoll2);
  }

  // ---------------------------------------------------------------------------
  // The component: the keydown handler
  // ---------------------------------------------------------------------------

  /** The component's state: the grid, the score, and the arguments of the
      `onGameOver` calls made so far, in call order. */
  class Game {
    var grid: Grid
    var score: int
    var reported: seq<int>

    ghost predicate Valid()
      reads this
    {
      IsGrid(grid) && NoNegative(grid) && score >= 0
    }

    /** The initial state: two tiles added to an empty grid. */
    constructor (cellRoll1: real, valueRoll1: real, cellRoll2: real, valueRoll2: real)
      requires 0.0 <= cellRoll1 < 1.0 && 0.0 <= valueRoll1 < 1.0
      requires 0.0 <= cellRoll2 < 1.0 && 0.0 <= valueRoll2 < 1.0
      ensures Valid()
      ensures grid == StartGrid(cellRoll1, valueRoll1, cellRoll2, valueRoll2)
      ensures score == 0 && reported == []
    {
      var g := InitialGrid(cellRoll1, valueRoll1, cellRoll2, valueRoll2);
      grid := g;
      score := 0;
      reported := [];
    }

    /** `handleKeyDown`: an arrow key moves; a move that changed the grid adds
        a tile and its merge score, and `onGameOver` is called whenever the
        grid is stuck after the key, also again on every later arrow key. */
    method HandleKeyDown(key: Key, cellRoll: real, valueRoll: real)
      requires Valid() && 0.0 <= cellRoll < 1.0 && 0.0 <= valueRoll < 1.0
      modifies this
      ensures Valid()
      ensures KeyDirection(key).None? ==>
        grid == old(grid) && score == old(score) && reported == old(reported)
      ensures KeyDirection(key).Some? ==>
        var k := IntendedTurns(KeyDirection(key).value);
        var slid := Slide(old(grid), k);
        if slid != old(grid) then
          && grid == WithTile(slid, cellRoll, valueRoll)
          && score == old(score) + SlideGain(old(grid), k)
          && reported == old(reported) + (if Stuck(grid) then [score] else [])
        else
          && grid == old(grid) && score == old(score)
          && reported == old(reported) + (if Stuck(grid) then [score] else [])
      ensures score >= old(score)
      ensures old(Stuck(grid)) && KeyDirection(key).Some? ==>
        grid == old(grid) && score == old(score) && reported == old(reported) + [score]
    {
      var direction := KeyDirection(key);
      if direction.None? {
        return;
      }
      ghost var k := IntendedTurns(direction.value);
      var newGrid, scoreGained, moved := IntendedMove(grid, direction.value);
      SlideNonNegative(grid, k);
      assert NoNegative(newGrid) && scoreGained >= 0;
      if Stuck(grid) {
        StuckNoMove(grid, k);
        assert !moved;
      }
      if moved {
        AddTileAndScore(newGrid, scoreGained, cellRoll, valueRoll);
      } else {
        ReportIfStuck();
      }
    }

    /** The branch of `handleKeyDown` after a move that changed the grid: a
        tile is added, the merge score is added, and a stuck result is reported. */
    method AddTileAndScore(newGrid: Grid, scoreGained: int, cellRoll: real, valueRoll: real)
      requires Valid() && IsGrid(newGrid) && NoNegative(newGrid) && scoreGained >= 0
      requires 0.0 <= cellRoll < 1.0 && 0.0 <= valueRoll < 1.0
      modifies this
      ensures Valid()
      ensures grid == WithTile(newGrid, cellRoll, valueRoll)
      ensures score == old(score) + scoreGained
      ensures reported == old(reported) + (if Stuck(grid) then [score] else [])
    {
      var gridWithNewTile := AddRandomTile(newGrid, cellRoll, valueRoll);
      SpawnKeepsNoNegative(newGrid, cellRoll, valueRoll);
      grid := gridWithNewTile;
      var newScore := score + scoreGained;
      score := newScore;
      var over := IsGameOver(gridWithNewTile);
      if over {
        reported := reported + [newScore];
      }
    }

    /** The branch of `handleKeyDown` after a move that changed nothing: the
        score is reported when the grid is stuck. */
    method ReportIfStuck()
      requires Valid()
      modifies this`reported
      ensures reported == old(reported) + (if Stuck(grid) then [score] else [])
    {
      var over := IsGameOver(grid);
      if over {
        reported := reported + [score];
      }
    }
  }

  // ---------------------------------------------------------------------------
  // Up and down are swapped
  // ---------------------------------------------------------------------------

  /** Column c from the top row down. */
  function Column(g: Grid, c: nat): (col: seq<int>)
    requires IsGrid(g) && c < Size
  {
    seq(Size, r requires 0 <= r < Size => g[r][c])
  }

  /** Column c from the bottom row up. */
  function ColumnFromBottom(g: Grid, c: nat): (col: seq<int>)
    requires IsGrid(g) && c < Size
  {
    seq(Size, r requires 0 <= r < Size => g[Size - 1 - r][c])
  }

  /** Every column slid and merged toward the top row. */
  function SlidUp(g: Grid): (r: Grid)
    requires IsGrid(g)
  {
    seq(Size, y requires 0 <= y < Size =>
      seq(Size, x requires 0 <= x < Size => SlidRow(Column(g, x))[y]))
  }

  /** Every column slid and merged toward the bottom row. */
  function SlidDown(g: Grid): (r: Grid)
    requires IsGrid(g)
  {
    seq(Size, y requires 0 <= y < Size =>
      seq(Size, x requires 0 <= x < Size => SlidRow(ColumnFromBottom(g, x))[Size - 1 - y]))
  }

  /** Row y read from the right edge to the left. */
  function RowFromRight(g: Grid, y: nat): (row: seq<int>)
    requires IsGrid(g) && y < Size
  {
    seq(Size, c requires 0 <= c < Size => g[y][Size - 1 - c])
  }

  /** Every row slid and merged toward the right edge. */
  function SlidRight(g: Grid): (r: Grid)
    requires IsGrid(g)
  {
    seq(Size, y requires 0 <= y < Size =>
      seq(Size, x requires 0 <= x < Size => SlidRow(RowFromRight(g, y))[Size - 1 - x]))
  }

  lemma ThreeTurns(g: Grid)
    requires IsGrid(g)
    ensures forall y, x :: 0 <= y < Size && 0 <= x < Size ==> RotatedTimes(g, 3)[y][x] == g[x][Size - 1 - y]
  {
    HalfTurn(g);
    var r2 := Rotated(Rotated(g));
    assert RotatedTimes(g, 1) == Rotated(g);
    assert RotatedTimes(g, 2) == r2;
    assert RotatedTimes(g, 3) == Rotated(r2);
    forall y, x | 0 <= y < Size && 0 <= x < Size
      ensures RotatedTimes(g, 3)[y][x] == g[x][Size - 1 - y]
    {
      assert RotatedTimes(g, 3)[y][x] == r2[Size - 1 - x][y];
      assert r2[Size - 1 - x][Size - 1 - (Size - 1 - y)] == g[x][Size - 1 - y];
    }
  }

  /** One clockwise turn, the row pass and three more turns slide every
      column toward the bottom row. */
  lemma OneTurnSlidesDown(g: Grid)
    requires IsGrid(g)
    ensures Slide(g, 1) == SlidDown(g)
  {
    var turned := Rotated(g);
    assert RotatedTimes(g, 1) == turned;
    forall a | 0 <= a < Size
      ensures turned[a] == ColumnFromBottom(g, a)
    {
    }
    var h := SlidLeft(turned);
    ThreeTurns(h);
    forall y | 0 <= y < Size
      ensures Slide(g, 1)[y] == SlidDown(g)[y]
    {
      forall x | 0 <= x < Size
        ensures Slide(g, 1)[y][x] == SlidDown(g)[y][x]
      {
        assert Slide(g, 1)[y][x] == h[x][Size - 1 - y];
      }
    }
  }

  /** Three clockwise turns, the row pass and one more turn slide every
      column toward the top row. */
  lemma ThreeTurnsSlideUp(g: Grid)
    requires IsGrid(g)
    ensures Slide(g, 3) == SlidUp(g)
  {
    var turned3 := RotatedTimes(g, 3);
    ThreeTurns(g);
    forall a | 0 <= a < Size
      ensures turned3[a] == Column(g, Size - 1 - a)
    {
    }
    var h3 := SlidLeft(turned3);
    assert RotatedTimes(h3, 1) == Rotated(h3);
    forall y | 0 <= y < Size
      ensures Slide(g, 3)[y] == SlidUp(g)[y]
    {
      forall x | 0 <= x < Size
        ensures Slide(g, 3)[y][x] == SlidUp(g)[y][x]
      {
        assert Rotated(h3)[y][x] == h3[Size - 1 - x][y];
      }
    }
  }

  /** Two turns, the row pass and two more turns slide every row toward the
      right edge. */
  lemma TwoTurnsSlideRight(g: Grid)
    requires IsGrid(g)
    ensures Slide(g, 2) == SlidRight(g)
  {
    var turned := RotatedTimes(g, 2);
    assert RotatedTimes(g, 1) == Rotated(g);
    assert turned == Rotated(Rotated(g));
    HalfTurn(g);
    forall a | 0 <= a < Size
      ensures turned[a] == RowFromRight(g, Size - 1 - a)
    {
      forall c | 0 <= c < Size
        ensures turned[a][c] == RowFromRight(g, Size - 1 - a)[c]
      {
        assert turned[Size - 1 - (Size - 1 - a)][Size - 1 - (Size - 1 - c)] == g[Size - 1 - a][Size - 1 - c];
      }
    }
    var h := SlidLeft(turned);
    assert RotatedTimes(h, 1) == Rotated(h);
    assert RotatedTimes(h, 2) == Rotated(Rotated(h));
    HalfTurn(h);
    forall y | 0 <= y < Size
      ensures Slide(g, 2)[y] == SlidRight(g)[y]
    {
      forall x | 0 <= x < Size
        ensures Slide(g, 2)[y][x] == SlidRight(g)[y][x]
      {
        assert Slide(g, 2)[Size - 1 - (Size - 1 - y)][Size - 1 - (Size - 1 - x)] == h[Size - 1 - y][Size - 1 - x];
        assert h[Size - 1 - y] == SlidRow(RowFromRight(g, y));
      }
    }
  }

  /** With no turn, `move` is the row pass itself: every row slides toward the
      left edge. */
  lemma NoTurnSlidesLeft(g: Grid)
    requires IsGrid(g)
    ensures Slide(g, 0) == SlidLeft(g)
  {
    var h := SlidLeft(g);
    assert RotatedTimes(g, 0) == g;
    assert RotatedTimes(h, 0) == h;
  }

  /** As written, ArrowUp (one clockwise turn) slides every column toward the
      bottom row and ArrowDown (three turns) toward the top row; ArrowLeft and
      ArrowRight slide toward the side they name. */
  lemma ArrowsAsWritten(g: Grid)
    requires IsGrid(g)
    ensures Slide(g, Turns(Up)) == SlidDown(g)
    ensures Slide(g, Turns(Down)) == SlidUp(g)
    ensures Slide(g, Turns(Left)) == SlidLeft(g)
    ensures Slide(g, Turns(Right)) == SlidRight(g)
  {
    OneTurnSlidesDown(g);
    ThreeTurnsSlideUp(g);
    NoTurnSlidesLeft(g);
    TwoTurnsSlideRight(g);
  }

  /** A single 2 in the top-left corner: as written, ArrowUp moves it to the
      bottom-left corner. */
  lemma UpArrowCounterexample()
    ensures var g := [[2, 0, 0, 0], [0, 0, 0, 0], [0, 0, 0, 0], [0, 0, 0, 0]];
      IsGrid(g) && Slide(g, Turns(Up))[Size - 1][0] == 2 && Slide(g, Turns(Up))[0][0] == 0
  {
    var g := [[2, 0, 0, 0], [0, 0, 0, 0], [0, 0, 0, 0], [0, 0, 0, 0]];
    ArrowsAsWritten(g);
    var col := ColumnFromBottom(g, 0);
    assert col == [0, 0, 0, 2];
    assert NonZero([2]) == [2];
    assert NonZero([0, 2]) == [2];
    assert NonZero([0, 0, 2]) == [2];
    assert col[1..] == [0, 0, 2];
    assert col[1..][1..] == [0, 2];
    assert NonZero(col) == [2];
    assert Merged([2]) == [2];
    assert SlidRow(col) == [2, 0, 0, 0];
  }

  /** The turn counts under which every arrow slides the tiles toward the side
      it names. */
  function IntendedTurns(d: Direction): (k: nat)
    ensures k < 4
  {
    match d
    case Left => 0
    case Down => 1
    case Right => 2
    case Up => 3
  }

  /** With the intended turn counts every arrow slides the tiles toward the
      side it names. */
  lemma IntendedArrows(g: Grid)
    requires IsGrid(g)
    ensures Slide(g, IntendedTurns(Up)) == SlidUp(g)
    ensures Slide(g, IntendedTurns(Down)) == SlidDown(g)
    ensures Slide(g, IntendedTurns(Left)) == SlidLeft(g)
    ensures Slide(g, IntendedTurns(Right)) == SlidRight(g)
  {
    OneTurnSlidesDown(g);
    ThreeTurnsSlideUp(g);
    NoTurnSlidesLeft(g);
    TwoTurnsSlideRight(g);
  }

  /** `move` with the up and down turn counts exchanged: each arrow slides the
      tiles toward the side it names. */
  method IntendedMove(grid: Grid, direction: Direction) returns (newGrid: Grid, scoreGained: int, moved: bool)
    requires IsGrid(grid)
    ensures newGrid == Slide(grid, IntendedTurns(direction))
    ensures direction == Up ==> newGrid == SlidUp(grid)
    ensures direction == Down ==> newGrid == SlidDown(grid)
    ensures direction == Left ==> newGrid == SlidLeft(grid)
    ensures direction == Right ==> newGrid == SlidRight(grid)
    ensures scoreGained == SlideGain(grid, IntendedTurns(direction))
    ensures moved <==> newGrid != grid
  {
    var rotations := 0;
    if direction == Down { rotations := 1; }
    if direction == Right { rotations := 2; }
    if direction == Up { rotations := 3; }
    newGrid, scoreGained, moved := MoveTurned(grid, rotations);
    IntendedArrows(grid);
  }
}
