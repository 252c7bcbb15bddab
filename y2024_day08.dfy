/** Advent of Code 2024, day 8 ("Resonant Collinearity"): antennas of one frequency, taken
    two at a time, produce antinodes at fixed multiples of their distance; both parts count
    the distinct antinodes inside the map. */
module Antinodes {
  import opened Wrappers
  import opened Text

  datatype Position = Position(x: int, y: int)

  /** `Grid`: the map's size and, for each frequency, its antennas in the order they were
      read. */
  datatype Grid = Grid(width: int, height: int, antennas: map<char, seq<Position>>)

  /** `p` comes strictly before `q` when reading row by row. */
  predicate Before(p: Position, q: Position)
  {
    p.y < q.y || (p.y == q.y && p.x < q.x)
  }

  predicate Ascending(ps: seq<Position>)
  {
    forall i, j :: 0 <= i < j < |ps| ==> Before(ps[i], ps[j])
  }

  /** The antenna characters of one line (every character but '.') from column `x` on, with
      their positions. */
  function RowCells(line: string, y: int, x: nat): (r: seq<(char, Position)>)
    requires x <= |line|
    ensures forall k :: 0 <= k < |r| ==> r[k].1.y == y && x <= r[k].1.x < |line|
    decreases |line| - x
  {
    if x == |line| then []
    else (if line[x] != '.' then [(line[x], Position(x, y))] else []) + RowCells(line, y, x + 1)
  }

  /** The antenna characters of the lines from row `y` on, row by row. */
  function GridCells(lines: seq<string>, y: nat): (r: seq<(char, Position)>)
    ensures forall k :: 0 <= k < |r| ==> y <= r[k].1.y < |lines|
    decreases |lines| - y
  {
    if y >= |lines| then [] else RowCells(lines[y], y, 0) + GridCells(lines, y + 1)
  }

  lemma {:induction false} RowCellsMembers(line: string, y: int, x0: nat, c: char, x: int)
    requires x0 <= |line|
    ensures (c, Position(x, y)) in RowCells(line, y, x0) <==> x0 <= x < |line| && line[x] == c && c != '.'
    decreases |line| - x0
  {
    if x0 < |line| {
      RowCellsMembers(line, y, x0 + 1, c, x);
    }
  }

  lemma {:induction false} GridCellsMembers(lines: seq<string>, y0: nat, c: char, p: Position)
    ensures (c, p) in GridCells(lines, y0)
            <==> y0 <= p.y < |lines| && 0 <= p.x < |lines[p.y]| && lines[p.y][p.x] == c && c != '.'
    decreases |lines| - y0
  {
    if y0 < |lines| {
      RowCellsMembers(lines[y0], y0, 0, c, p.x);
      GridCellsMembers(lines, y0 + 1, c, p);
      if (c, p) in RowCells(lines[y0], y0, 0) {
        assert p.y == y0;
      }
    }
  }

  predicate CellsAscending(cells: seq<(char, Position)>)
  {
    forall i, j :: 0 <= i < j < |cells| ==> Before(cells[i].1, cells[j].1)
  }

  lemma {:induction false} RowCellsAscending(line: string, y: int, x: nat)
    requires x <= |line|
    ensures CellsAscending(RowCells(line, y, x))
    decreases |line| - x
  {
    if x < |line| {
      RowCellsAscending(line, y, x + 1);
    }
  }

  lemma {:induction false} GridCellsAscending(lines: seq<string>, y: nat)
    ensures CellsAscending(GridCells(lines, y))
    decreases |lines| - y
  {
    if y < |lines| {
      RowCellsAscending(lines[y], y, 0);
      GridCellsAscending(lines, y + 1);
    }
  }

  /** The positions of the antennas of frequency `c`, in order. */
  function Positions(cells: seq<(char, Position)>, c: char): (r: seq<Position>)
    ensures |r| <= |cells|
  {
    if cells == [] then []
    else
      var last := cells[|cells| - 1];
      Positions(cells[..|cells| - 1], c) + (if last.0 == c then [last.1] else [])
  }

  lemma {:induction false} PositionsMembers(cells: seq<(char, Position)>, c: char, p: Position)
    ensures p in Positions(cells, c) <==> (c, p) in cells
  {
    if cells != [] {
      var init := cells[..|cells| - 1];
      PositionsMembers(init, c, p);
      assert cells == init + [cells[|cells| - 1]];
    }
  }

  /** Picking one frequency's positions keeps the reading order. */
  lemma {:induction false} PositionsAscending(cells: seq<(char, Position)>, c: char)
    requires CellsAscending(cells)
    ensures Ascending(Positions(cells, c))
  {
    if cells != [] {
      var init := cells[..|cells| - 1];
      var last := cells[|cells| - 1];
      assert CellsAscending(init);
      PositionsAscending(init, c);
      var ps := Positions(init, c);
      forall k | 0 <= k < |ps| ensures Before(ps[k], last.1) {
        assert ps[k] in ps;
        PositionsMembers(init, c, ps[k]);
        var i :| 0 <= i < |init| && init[i] == (c, ps[k]);
      }
    }
  }

  /** The loop of `parse`: each antenna is appended to its frequency's list, which is
      created with that antenna when it is the first one. */
  method Group(cells: seq<(char, Position)>) returns (antennas: map<char, seq<Position>>)
    ensures forall c :: c in antennas <==> Positions(cells, c) != []
    ensures forall c :: c in antennas ==> antennas[c] == Positions(cells, c)
  {
    antennas := map[];
    for i := 0 to |cells|
      invariant forall c :: c in antennas <==> Positions(cells[..i], c) != []
      invariant forall c :: c in antennas ==> antennas[c] == Positions(cells[..i], c)
    {
      var (ch, p) := cells[i];
      assert cells[..i + 1][..i] == cells[..i];
      if ch in antennas {
        antennas := antennas[ch := antennas[ch] + [p]];
      } else {
        antennas := antennas[ch := [p]];
      }
    }
    assert cells[..|cells|] == cells;
  }

  /** `parse`: the width of the first line, the number of lines, and the antennas; an input
      without lines has no first line and is an error. */
  method Parse(input: string) returns (r: Option<Grid>)
    ensures r.None? <==> Lines(input) == []
    ensures r.Some? ==> r.value.width == |Lines(input)[0]| && r.value.height == |Lines(input)|
    ensures r.Some? ==> forall c :: c in r.value.antennas <==> Positions(GridCells(Lines(input), 0), c) != []
    ensures r.Some? ==> forall c :: c in r.value.antennas ==>
                          r.value.antennas[c] == Positions(GridCells(Lines(input), 0), c)
  {
    var lines := Lines(input);
    var antennas := Group(GridCells(lines, 0));
    if lines == [] {
      return None;
    }
    return Some(Grid(|lines[0]|, |lines|, antennas));
  }

  /** What the parsed antennas mean: frequency `c` lists exactly the positions holding the
      character `c`, in reading order. */
  lemma ParsedAntennas(lines: seq<string>, c: char, p: Position)
    ensures p in Positions(GridCells(lines, 0), c)
            <==> 0 <= p.y < |lines| && 0 <= p.x < |lines[p.y]| && lines[p.y][p.x] == c && c != '.'
    ensures Ascending(Positions(GridCells(lines, 0), c))
  {
    PositionsMembers(GridCells(lines, 0), c, p);
    GridCellsMembers(lines, 0, c, p);
    GridCellsAscending(lines, 0);
    PositionsAscending(GridCells(lines, 0), c);
  }

  /** `combinations(2)`: each pair of list entries once, the earlier entry first, in the
      order of the earlier and then of the later entry. */
  function Pairs(s: seq<Position>): (r: seq<(Position, Position)>)
    ensures |s| < 2 ==> r == []
  {
    if |s| < 2 then []
    else seq(|s| - 1, k requires 0 <= k < |s| - 1 => (s[0], s[k + 1])) + Pairs(s[1..])
  }

  lemma {:induction false} PairsMembers(s: seq<Position>, a: Position, b: Position)
    ensures (a, b) in Pairs(s) <==> exists i, j :: 0 <= i < j < |s| && s[i] == a && s[j] == b
  {
    if |s| >= 2 {
      var first := seq(|s| - 1, k requires 0 <= k < |s| - 1 => (s[0], s[k + 1]));
      var rest := s[1..];
      PairsMembers(rest, a, b);
      if (a, b) in first {
        var k :| 0 <= k < |first| && first[k] == (a, b);
        assert s[0] == a && s[k + 1] == b;
      }
      if (a, b) in Pairs(rest) {
        var i, j :| 0 <= i < j < |rest| && rest[i] == a && rest[j] == b;
        assert s[i + 1] == a && s[j + 1] == b;
      }
      if exists i, j :: 0 <= i < j < |s| && s[i] == a && s[j] == b {
        var i, j :| 0 <= i < j < |s| && s[i] == a && s[j] == b;
        if i == 0 {
          assert first[j - 1] == (a, b);
        } else {
          assert rest[i - 1] == a && rest[j - 1] == b;
        }
      }
    }
  }

  /** `a + k * d`. */
  function Along(a: Position, d: Position, k: int): Position
  {
    Position(a.x + k * d.x, a.y + k * d.y)
  }

  function Distance(a: Position, b: Position): (d: Position)
    ensures Along(a, d, 1) == b
  {
    Position(b.x - a.x, b.y - a.y)
  }

  predicate InBounds(p: Position, width: int, height: int)
  {
    0 <= p.x < width && 0 <= p.y < height
  }

  /** Part one's multiples of the distance: `a - d` and `a + 2d`. */
  const Part1Factors: seq<int> := [-1, 2]

  /** Part two's: `a - offset * d` for every offset in `-100..100`. */
  function Part2Factors(): (r: seq<int>)
    ensures |r| == 200 && forall i :: 0 <= i < 200 ==> r[i] == -(i - 100)
  {
    seq(200, i requires 0 <= i < 200 => -(i - 100))
  }

  /** The in-bounds points `a + k * d` of one pair, one per factor `k`, in order. */
  function Hits(a: Position, b: Position, factors: seq<int>, width: int, height: int): (r: seq<Position>)
    ensures forall p :: p in r ==> InBounds(p, width, height)
  {
    if factors == [] then []
    else
      var p := Along(a, Distance(a, b), factors[0]);
      (if InBounds(p, width, height) then [p] else []) + Hits(a, b, factors[1..], width, height)
  }

  lemma {:induction false} HitsMembers(a: Position, b: Position, factors: seq<int>, width: int, height: int, p: Position)
    ensures p in Hits(a, b, factors, width, height)
            <==> InBounds(p, width, height) && exists k :: k in factors && p == Along(a, Distance(a, b), k)
  {
    if factors != [] {
      HitsMembers(a, b, factors[1..], width, height, p);
      assert forall k :: k in factors <==> k == factors[0] || k in factors[1..];
    }
  }

  /** The `flat_map` over the pairs. */
  function Emitted(pairs: seq<(Position, Position)>, factors: seq<int>, width: int, height: int): (r: seq<Position>)
    ensures forall p :: p in r ==> InBounds(p, width, height)
  {
    if pairs == [] then []
    else Hits(pairs[0].0, pairs[0].1, factors, width, height) + Emitted(pairs[1..], factors, width, height)
  }

  lemma {:induction false} EmittedMembers(pairs: seq<(Position, Position)>, factors: seq<int>, width: int, height: int, p: Position)
    ensures p in Emitted(pairs, factors, width, height)
            <==> exists q :: q in pairs && p in Hits(q.0, q.1, factors, width, height)
  {
    if pairs != [] {
      EmittedMembers(pairs[1..], factors, width, height, p);
      assert forall q :: q in pairs <==> q == pairs[0] || q in pairs[1..];
    }
  }

  /** `get_antinodes_within` (with `Part1Factors`) and `get_part_2_antinodes_within` (with
      `Part2Factors()`) for one frequency. */
  function AntinodesOf(antennas: seq<Position>, factors: seq<int>, width: int, height: int): (r: seq<Position>)
    ensures forall p :: p in r ==> InBounds(p, width, height)
  {
    Emitted(Pairs(antennas), factors, width, height)
  }

  /** An antinode is an in-bounds point `a + k * (b - a)` for two antennas `a` before `b` of
      the frequency and a factor `k`; nothing else is emitted. */
  predicate IsAntinode(antennas: seq<Position>, factors: seq<int>, width: int, height: int, p: Position)
  {
    InBounds(p, width, height)
    && exists i, j, k :: 0 <= i < j < |antennas| && k in factors
                         && p == Along(antennas[i], Distance(antennas[i], antennas[j]), k)
  }

  lemma AntinodesOfMeaning(antennas: seq<Position>, factors: seq<int>, width: int, height: int, p: Position)
    ensures p in AntinodesOf(antennas, factors, width, height) <==> IsAntinode(antennas, factors, width, height, p)
  {
    EmittedMembers(Pairs(antennas), factors, width, height, p);
    if p in AntinodesOf(antennas, factors, width, height) {
      var q :| q in Pairs(antennas) && p in Hits(q.0, q.1, factors, width, height);
      HitsMembers(q.0, q.1, factors, width, height, p);
      PairsMembers(antennas, q.0, q.1);
    }
    if IsAntinode(antennas, factors, width, height, p) {
      var i, j, k :| 0 <= i < j < |antennas| && k in factors
                     && p == Along(antennas[i], Distance(antennas[i], antennas[j]), k);
      var q := (antennas[i], antennas[j]);
      PairsMembers(antennas, q.0, q.1);
      HitsMembers(q.0, q.1, factors, width, height, p);
    }
  }

  /** A frequency with fewer than two antennas has no pair and so no antinode. */
  lemma LoneAntennaNoAntinodes(antennas: seq<Position>, factors: seq<int>, width: int, height: int)
    requires |antennas| < 2
    ensures AntinodesOf(antennas, factors, width, height) == []
  {
  }

  /** Part two's offsets 0 and -1 give the two antennas themselves, so every antenna that
      has a partner and lies in the map is its own antinode. */
  lemma AntennasAreAntinodes(antennas: seq<Position>, width: int, height: int, i: int, j: int)
    requires 0 <= i < j < |antennas|
    ensures InBounds(antennas[i], width, height) ==> antennas[i] in AntinodesOf(antennas, Part2Factors(), width, height)
    ensures InBounds(antennas[j], width, height) ==> antennas[j] in AntinodesOf(antennas, Part2Factors(), width, height)
  {
    var a, b := antennas[i], antennas[j];
    var factors := Part2Factors();
    assert factors[100] == 0 && factors[99] == 1;
    assert 0 in factors && 1 in factors;
    if InBounds(a, width, height) {
      assert a == Along(antennas[i], Distance(antennas[i], antennas[j]), 0);
      assert IsAntinode(antennas, factors, width, height, a);
      AntinodesOfMeaning(antennas, factors, width, height, a);
    }
    if InBounds(b, width, height) {
      assert b == Along(antennas[i], Distance(antennas[i], antennas[j]), 1);
      assert IsAntinode(antennas, factors, width, height, b);
      AntinodesOfMeaning(antennas, factors, width, height, b);
    }
  }

  /** The distinct antinodes of all frequencies (`unique`). */
  function AntinodeSet(grid: Grid, factors: seq<int>): set<Position>
  {
    set c, p | c in grid.antennas && p in AntinodesOf(grid.antennas[c], factors, grid.width, grid.height) :: p
  }

  /** `part1`: the distinct antinodes at `a - d` and `a + 2d`, at most one per cell. */
  function Part1(grid: Grid): (r: nat)
    ensures grid.width >= 0 && grid.height >= 0 ==> r <= grid.width * grid.height
  {
    if grid.width >= 0 && grid.height >= 0 then
      AntinodesFitMap(grid, Part1Factors);
      |AntinodeSet(grid, Part1Factors)|
    else
      |AntinodeSet(grid, Part1Factors)|
  }

  /** `part2`: the distinct antinodes at every multiple of `d` in the map, at most one per
      cell. */
  function Part2(grid: Grid): (r: nat)
    ensures grid.width >= 0 && grid.height >= 0 ==> r <= grid.width * grid.height
  {
    if grid.width >= 0 && grid.height >= 0 then
      AntinodesFitMap(grid, Part2Factors());
      |AntinodeSet(grid, Part2Factors())|
    else
      |AntinodeSet(grid, Part2Factors())|
  }

  /** The cells of a `width` by `height` map. */
  function MapCells(width: nat, height: nat): set<Position>
  {
    set x, y | 0 <= x < width && 0 <= y < height :: Position(x, y)
  }

  /** The cells of row `y`, up to column `width`. */
  function MapRow(width: nat, y: int): set<Position>
  {
    set x | 0 <= x < width :: Position(x, y)
  }

  lemma {:induction false} MapRowCount(width: nat, y: int)
    ensures |MapRow(width, y)| == width
  {
    if width > 0 {
      MapRowCount(width - 1, y);
      assert MapRow(width, y) == MapRow(width - 1, y) + {Position(width - 1, y)};
    }
  }

  /** A map holds `width * height` cells. */
  lemma {:induction false} MapCellsCount(width: nat, height: nat)
    ensures |MapCells(width, height)| == width * height
  {
    if height > 0 {
      MapCellsCount(width, height - 1);
      MapRowCount(width, height - 1);
      MapCellsLastRow(width, height);
      assert width * height == width * (height - 1) + width;
    }
  }

  /** A map is the map one row shorter plus its last row, which is new. */
  lemma MapCellsLastRow(width: nat, height: nat)
    requires height > 0
    ensures MapCells(width, height) == MapCells(width, height - 1) + MapRow(width, height - 1)
    ensures MapCells(width, height - 1) !! MapRow(width, height - 1)
  {
    forall p | p in MapCells(width, height)
      ensures p in MapCells(width, height - 1) + MapRow(width, height - 1)
    {
      if p.y < height - 1 {
        assert p in MapCells(width, height - 1);
      } else {
        assert p in MapRow(width, height - 1);
      }
    }
  }

  /** Every antinode is a cell of the map, so there are at most as many as cells. */
  lemma AntinodesFitMap(grid: Grid, factors: seq<int>)
    requires grid.width >= 0 && grid.height >= 0
    ensures AntinodeSet(grid, factors) <= MapCells(grid.width, grid.height)
    ensures |AntinodeSet(grid, factors)| <= grid.width * grid.height
  {
    var cells := MapCells(grid.width, grid.height);
    forall p | p in AntinodeSet(grid, factors) ensures p in cells {
      var c :| c in grid.antennas && p in AntinodesOf(grid.antennas[c], factors, grid.width, grid.height);
      assert p == Position(p.x, p.y);
    }
    SubsetSize(AntinodeSet(grid, factors), cells);
    MapCellsCount(grid.width, grid.height);
  }

  /** Every counted antinode lies in the map. */
  lemma AntinodesInBounds(grid: Grid, factors: seq<int>, p: Position)
    requires p in AntinodeSet(grid, factors)
    ensures InBounds(p, grid.width, grid.height)
  {
    var c :| c in grid.antennas && p in AntinodesOf(grid.antennas[c], factors, grid.width, grid.height);
    AntinodesOfMeaning(grid.antennas[c], factors, grid.width, grid.height, p);
  }

  /** Part one's factors are among part two's (offsets 1 and -2), so each part-one antinode
      is also a part-two antinode, and part two counts at least as many. */
  lemma Part1WithinPart2(grid: Grid)
    ensures AntinodeSet(grid, Part1Factors) <= AntinodeSet(grid, Part2Factors())
    ensures Part1(grid) <= Part2(grid)
  {
    var f2 := Part2Factors();
    assert f2[101] == -1 && f2[98] == 2;
    assert forall k :: k in Part1Factors ==> k in f2;
    forall p | p in AntinodeSet(grid, Part1Factors) ensures p in AntinodeSet(grid, f2) {
      var c :| c in grid.antennas && p in AntinodesOf(grid.antennas[c], Part1Factors, grid.width, grid.height);
      AntinodesOfMeaning(grid.antennas[c], Part1Factors, grid.width, grid.height, p);
      AntinodesOfMeaning(grid.antennas[c], f2, grid.width, grid.height, p);
    }
    SubsetSize(AntinodeSet(grid, Part1Factors), AntinodeSet(grid, f2));
  }

  lemma {:induction false} SubsetSize<T>(a: set<T>, b: set<T>)
    requires a <= b
    ensures |a| <= |b|
    decreases |a|
  {
    if a != {} {
      var x :| x in a;
      SubsetSize(a - {x}, b - {x});
    }
  }
}
