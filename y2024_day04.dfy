/** 2024 day 4: a word search. `part1` counts the runs of four letters, across, down or
    along either diagonal, that read XMAS forwards or backwards; `part2` counts the letters A that sit in the middle of two
    crossing diagonals reading MAS either way. */
module WordSearch {
  import opened Wrappers
  import opened Text
  import opened RowMajor

  /** The parsed puzzle: the letters with the line breaks taken out, the number of characters
      of the first line and the number of lines. */
  datatype Puzzle = Puzzle(grid: string, width: nat, height: nat)

  datatype ParseError = NoLines

  /** `parse`: an input without lines has no first line, which is an error. */
  function Parse(input: string): (r: Result<Puzzle, ParseError>)
    ensures r.Err? <==> input == []
    ensures r.Ok? ==> r.value.grid == Remove(input, '\n') && '\n' !in r.value.grid
    ensures r.Ok? ==> r.value.width == |Lines(input)[0]| && r.value.height == |Lines(input)|
  {
    var lines := Lines(input);
    if lines == [] then Err(NoLines)
    else Ok(Puzzle(Remove(input, '\n'), |lines[0]|, |lines|))
  }

  /** The grid holds `width` letters per row and `height` rows. */
  predicate Rectangular(p: Puzzle)
  {
    |p.grid| == p.width * p.height
  }

  /** A text without carriage returns whose lines are equally long parses to a rectangle of
      letters, one row per line. */
  lemma ParseRectangular(input: string)
    requires input != [] && '\r' !in input
    requires SameWidth(Lines(input), |Lines(input)[0]|)
    ensures Parse(input).Ok? && Rectangular(Parse(input).value)
    ensures Parse(input).value.height == |Lines(input)|
  {
    var lines := Lines(input);
    ConcatLines(input);
    ConcatSameWidth(lines, |lines[0]|);
  }

  /** The letter in column `x` of row `y`. */
  function Letter(p: Puzzle, x: nat, y: nat): char
    requires Rectangular(p) && x < p.width && y < p.height
  {
    p.grid[Index(x, y, p.width, p.height)]
  }

  /** The four letters from column `x` of row `y` on in direction (`dx`, `dy`), or `None`
      when the run would leave the grid. */
  function Run(p: Puzzle, x: int, y: int, dx: int, dy: int): (r: Option<string>)
    requires Rectangular(p) && -1 <= dx <= 1 && 0 <= dy <= 1
    ensures r.Some? <==> 0 <= x < p.width && 0 <= x + 3 * dx < p.width
                         && 0 <= y < p.height && 0 <= y + 3 * dy < p.height
  {
    if 0 <= x < p.width && 0 <= x + 3 * dx < p.width && 0 <= y < p.height && 0 <= y + 3 * dy < p.height
    then Some([Letter(p, x, y), Letter(p, x + dx, y + dy), Letter(p, x + 2 * dx, y + 2 * dy),
               Letter(p, x + 3 * dx, y + 3 * dy)])
    else None
  }

  /** The two words `part1` looks for: XMAS read forwards or backwards. */
  predicate IsNeedle(s: string)
  {
    s == "XMAS" || s == "SAMX"
  }

  function Found(b: bool): nat
  {
    if b then 1 else 0
  }

  /** Whether the run from (`x`, `y`) in direction (`dx`, `dy`) stays inside the grid and
      reads XMAS either way. */
  function RunFound(p: Puzzle, x: int, y: int, dx: int, dy: int): nat
    requires Rectangular(p) && -1 <= dx <= 1 && 0 <= dy <= 1
  {
    var run := Run(p, x, y, dx, dy);
    Found(run.Some? && IsNeedle(run.value))
  }

  /** The occurrences starting at a cell, on coordinates: one for each of the four directions
      right, down, down-right and down-left whose run fits and reads XMAS either way. */
  function Occurrences(p: Puzzle, x: nat, y: nat): nat
    requires Rectangular(p)
  {
    RunFound(p, x, y, 1, 0) + RunFound(p, x, y, 0, 1) + RunFound(p, x, y, 1, 1)
    + RunFound(p, x, y, -1, 1)
  }

  /** `skip(start).step_by(step).take(n)` over the letters, collected into a string. */
  function Strided(grid: string, start: nat, step: nat, n: nat): (r: string)
    ensures |r| <= n
    decreases n
  {
    if n == 0 || start >= |grid| then []
    else [grid[start]] + Strided(grid, start + step, step, n - 1)
  }

  /** The count of one cell in `part1`, one term per direction, each guarded by the
      unsigned comparisons of the source, whose subtractions need four columns and four
      rows. */
  function CellCount(p: Puzzle, x: nat, y: nat): (n: nat)
    requires Rectangular(p) && x < p.width && y < p.height && p.width >= 4 && p.height >= 4
    ensures n <= 4
  {
    var w, h := p.width, p.height;
    (if x <= w - 4 then Horizontal(p, x, y) else 0)
    + (if y <= h - 4 then Strides(p, x, y, 0) else 0)
    + (if x <= w - 4 && y <= h - 4 then Strides(p, x, y, 1) else 0)
    + (if x >= 3 && y <= h - 4 then Strides(p, x, y, -1) else 0)
  }

  /** The horizontal term: the four letters from the cell's index on, as a slice of the flat
      grid. */
  function Horizontal(p: Puzzle, x: nat, y: nat): nat
    requires Rectangular(p) && x + 4 <= p.width && y < p.height
  {
    var index := Index(x, y, p.width, p.height);
    Found(IsNeedle(p.grid[index..index + 4]))
  }

  /** The vertical (`dx` = 0) and diagonal (`dx` = 1, -1) terms: every `width + dx`-th letter
      from the cell's index on. */
  function Strides(p: Puzzle, x: nat, y: nat, dx: int): nat
    requires Rectangular(p) && x < p.width && y < p.height && p.width >= 4 && -1 <= dx <= 1
  {
    Found(IsNeedle(Strided(p.grid, Index(x, y, p.width, p.height), p.width + dx, 4)))
  }

  /** The guards of `part1` are exactly the bounds of the runs, and the slice and strided
      reads are exactly the letters of the runs: no run wraps around into another row. */
  lemma CellCountIsOccurrences(p: Puzzle, x: nat, y: nat)
    requires Rectangular(p) && x < p.width && y < p.height && p.width >= 4 && p.height >= 4
    ensures CellCount(p, x, y) == Occurrences(p, x, y)
  {
    var w, h := p.width, p.height;
    if x <= w - 4 {
      HorizontalRun(p, x, y);
    }
    if y <= h - 4 {
      StridedRun(p, x, y, 0);
    }
    if x <= w - 4 && y <= h - 4 {
      StridedRun(p, x, y, 1);
    }
    if x >= 3 && y <= h - 4 {
      StridedRun(p, x, y, -1);
    }
  }

  lemma HorizontalRun(p: Puzzle, x: nat, y: nat)
    requires Rectangular(p) && x + 4 <= p.width && y < p.height
    ensures Horizontal(p, x, y) == RunFound(p, x, y, 1, 0)
  {
    var index := Index(x, y, p.width, p.height);
    assert p.grid[index..index + 4] == Run(p, x, y, 1, 0).value;
  }

  /** Reading every `width + dx`-th letter from a cell walks one row down and `dx` columns
      across at each step. */
  lemma StridedRun(p: Puzzle, x: nat, y: nat, dx: int)
    requires Rectangular(p) && p.width >= 4 && -1 <= dx <= 1
    requires x < p.width && 0 <= x + 3 * dx < p.width && y + 3 < p.height
    ensures Strides(p, x, y, dx) == RunFound(p, x, y, dx, 1)
  {
    var w, h := p.width, p.height;
    var index := Index(x, y, w, h);
    RowsDown(x + dx, y, 1, w, h);
    RowsDown(x + 2 * dx, y, 2, w, h);
    RowsDown(x + 3 * dx, y, 3, w, h);
    assert Strided(p.grid, index + 3 * (w + dx), w + dx, 1) == [Letter(p, x + 3 * dx, y + 3)];
    assert Strided(p.grid, index, w + dx, 4) == Run(p, x, y, dx, 1).value;
  }

  /** The sum of the counts. */
  function Total(counts: seq<nat>): nat
  {
    if counts == [] then 0 else counts[0] + Total(counts[1..])
  }

  /** Counts of at most `m` each sum to at most `m` times their number. */
  lemma {:induction false} TotalBound(counts: seq<nat>, m: nat)
    requires forall k :: 0 <= k < |counts| ==> counts[k] <= m
    ensures Total(counts) <= m * |counts|
  {
    if counts != [] {
      TotalBound(counts[1..], m);
      assert m * |counts| == m + m * |counts[1..]|;
    }
  }

  /** The per-cell counts of `part1`, row after row. */
  function CellCounts(p: Puzzle): (r: seq<nat>)
    requires Rectangular(p) && p.width >= 4 && p.height >= 4
    ensures |r| == p.width * p.height
    ensures forall i :: 0 <= i < |r| ==>
      r[i] == CellCount(p, Column(i, p.width), Row(i, p.width, p.height))
  {
    seq(p.width * p.height,
        i requires 0 <= i < p.width * p.height =>
          CellCount(p, Column(i, p.width), Row(i, p.width, p.height)))
  }

  /** `part1`: the counts of all cells, summed. The source's `width - 4` and `height - 4`
      underflow unless the grid is empty or has at least four rows and four columns.
      Every cell adds at most one occurrence per direction, so at most four. */
  function Part1(p: Puzzle): (r: nat)
    requires Rectangular(p)
    requires p.width == 0 || p.height == 0 || (p.width >= 4 && p.height >= 4)
    ensures r <= 4 * (p.width * p.height)
  {
    if p.width == 0 || p.height == 0 then 0
    else
      TotalBound(CellCounts(p), 4);
      Total(CellCounts(p))
  }

  /** The runs of every cell, on coordinates, row after row. */
  function OccurrenceCounts(p: Puzzle): (r: seq<nat>)
    requires Rectangular(p) && p.width > 0
    ensures |r| == p.width * p.height
    ensures forall i :: 0 <= i < |r| ==>
      r[i] == Occurrences(p, Column(i, p.width), Row(i, p.width, p.height))
  {
    seq(p.width * p.height,
        i requires 0 <= i < p.width * p.height =>
          Occurrences(p, Column(i, p.width), Row(i, p.width, p.height)))
  }

  /** `part1` counts every run of four letters, in the four directions right, down,
      down-right and down-left, that stays inside the grid and reads XMAS either way. */
  lemma Part1CountsRuns(p: Puzzle)
    requires Rectangular(p) && p.width >= 4 && p.height >= 4
    ensures Part1(p) == Total(OccurrenceCounts(p))
  {
    var counts, runs := CellCounts(p), OccurrenceCounts(p);
    forall i | 0 <= i < |counts| ensures counts[i] == runs[i] {
      CellCountIsOccurrences(p, Column(i, p.width), Row(i, p.width, p.height));
    }
    assert counts == runs;
  }

  /** An M and an S, in either order. */
  predicate IsMS(a: char, b: char)
  {
    (a == 'M' && b == 'S') || (a == 'S' && b == 'M')
  }

  /** An X-MAS centred on column `x` of row `y`, on coordinates: an A whose two diagonals
      each join an M and an S. */
  predicate XMasAt(p: Puzzle, x: nat, y: nat)
    requires Rectangular(p) && 1 <= x && x + 1 < p.width && 1 <= y && y + 1 < p.height
  {
    Letter(p, x, y) == 'A'
    && IsMS(Letter(p, x - 1, y - 1), Letter(p, x + 1, y + 1))
    && IsMS(Letter(p, x + 1, y - 1), Letter(p, x - 1, y + 1))
  }

  /** The count of one interior cell in `part2`, read through the four signed index offsets
      of the diagonal neighbours. */
  function XCount(p: Puzzle, x: nat, y: nat): nat
    requires Rectangular(p) && 1 <= x && x + 1 < p.width && 1 <= y && y + 1 < p.height
  {
    var w := p.width;
    var center := Index(x, y, w, p.height);
    if p.grid[center] != 'A' then 0
    else
      XOffsets(p, x, y);
      var topLeft, bottomLeft, topRight, bottomRight := -1 - w, -1 + w, 1 - w, 1 + w;
      var diagonal := [p.grid[center + topLeft], p.grid[center + bottomRight]];
      var antidiagonal := [p.grid[center + topRight], p.grid[center + bottomLeft]];
      Found(IsMS(diagonal[0], diagonal[1]) && IsMS(antidiagonal[0], antidiagonal[1]))
  }

  /** The four offsets land on the diagonal neighbours of an interior cell. */
  lemma XOffsets(p: Puzzle, x: nat, y: nat)
    requires Rectangular(p) && 1 <= x && x + 1 < p.width && 1 <= y && y + 1 < p.height
    ensures var w, h, c := p.width, p.height, Index(x, y, p.width, p.height);
      && c + (-1 - w) == Index(x - 1, y - 1, w, h) && c + (1 + w) == Index(x + 1, y + 1, w, h)
      && c + (1 - w) == Index(x + 1, y - 1, w, h) && c + (-1 + w) == Index(x - 1, y + 1, w, h)
      && Index(x + 1, y + 1, w, h) < |p.grid|
  {
    var w, h := p.width, p.height;
    RowsDown(x - 1, y - 1, 1, w, h);
    RowsDown(x + 1, y - 1, 1, w, h);
    RowsDown(x - 1, y, 1, w, h);
    RowsDown(x + 1, y, 1, w, h);
  }

  /** `part2` counts a cell exactly when it is the centre of an X-MAS. */
  lemma XCountIsXMas(p: Puzzle, x: nat, y: nat)
    requires Rectangular(p) && 1 <= x && x + 1 < p.width && 1 <= y && y + 1 < p.height
    ensures XCount(p, x, y) == Found(XMasAt(p, x, y))
  {
    XOffsets(p, x, y);
  }

  /** The number of interior columns or rows: `1..n - 1`. */
  function Inner(n: nat): nat
  {
    if n >= 2 then n - 2 else 0
  }

  /** The per-cell counts of `part2` over the interior cells, row after row. */
  function XCounts(p: Puzzle): (r: seq<nat>)
    requires Rectangular(p) && p.width >= 3
    ensures |r| == Inner(p.width) * Inner(p.height)
    ensures forall i :: 0 <= i < |r| ==>
      r[i] == XCount(p, 1 + Column(i, p.width - 2), 1 + Row(i, p.width - 2, Inner(p.height)))
  {
    var iw, ih := p.width - 2, Inner(p.height);
    seq(iw * ih,
        i requires 0 <= i < iw * ih => XCount(p, 1 + Column(i, iw), 1 + Row(i, iw, ih)))
  }

  /** `part2`: the counts of the interior cells, summed; the border cells are never looked
      at, so every neighbour exists. The source's `width - 1` underflows on an empty first
      line once there is an interior row, and `height - 1` on an empty grid. */
  function Part2(p: Puzzle): (r: nat)
    requires Rectangular(p) && p.height >= 1 && (p.height <= 2 || p.width >= 1)
    ensures r <= Inner(p.width) * Inner(p.height)
  {
    if p.width <= 2 || p.height <= 2 then 0
    else
      TotalBound(XCounts(p), 1);
      Total(XCounts(p))
  }

  /** The X-MAS centres among the interior cells, as 0 or 1 each, row after row. */
  function XMasCounts(p: Puzzle): (r: seq<nat>)
    requires Rectangular(p) && p.width >= 3
    ensures |r| == Inner(p.width) * Inner(p.height)
  {
    var iw, ih := p.width - 2, Inner(p.height);
    seq(iw * ih,
        i requires 0 <= i < iw * ih =>
          Found(XMasAt(p, 1 + Column(i, iw), 1 + Row(i, iw, ih))))
  }

  /** `part2` is the number of X-MAS centres, and at most the number of interior cells. */
  lemma Part2CountsXMas(p: Puzzle)
    requires Rectangular(p) && p.width >= 3 && p.height >= 3
    ensures Part2(p) == Total(XMasCounts(p))
    ensures Part2(p) <= (p.width - 2) * (p.height - 2)
  {
    var counts, centres := XCounts(p), XMasCounts(p);
    forall i | 0 <= i < |counts| ensures counts[i] == centres[i] {
      var iw, ih := p.width - 2, Inner(p.height);
      XCountIsXMas(p, 1 + Column(i, iw), 1 + Row(i, iw, ih));
    }
    assert counts == centres;
    TotalBound(centres, 1);
  }
}
