/** 2024 day 6: a guard walks a lab grid, turning right at obstructions and marking every
    tile it steps on, until it leaves the grid or repeats a (position, heading) pair; then
    every visited tile is tried as the place of one new obstruction, counting the placements
    that trap the guard in a loop. */
module GuardPatrol {
  import opened Wrappers
  import opened Text
  import opened RowMajor

  datatype Heading = North | East | South | West

  datatype Tile = Empty | Visited | Obstructed

  /** The heading after a right turn at an obstruction. */
  function TurnRight(h: Heading): (r: Heading)
    ensures r != h && TurnLeft(r) == h
  {
    match h
    case North => East
    case East => South
    case South => West
    case West => North
  }

  /** The heading before a right turn; only used to state what the walk has seen. */
  function TurnLeft(h: Heading): Heading
  {
    match h
    case North => West
    case East => North
    case South => East
    case West => South
  }

  /** One step in the direction `h`, as (column, row) offsets. */
  function Offset(h: Heading): (int, int)
  {
    match h
    case North => (0, -1)
    case East => (1, 0)
    case South => (0, 1)
    case West => (-1, 0)
  }

  /** The (column, row) one step ahead of (`x`, `y`), or `None` when the guard faces the
      edge of the grid: the guards of the four arms of `get_next_position`. */
  function Step(x: nat, y: nat, h: Heading, width: nat, height: nat): (r: Option<(nat, nat)>)
    ensures x < width && y < height ==>
      (r.Some? <==> 0 <= x + Offset(h).0 < width && 0 <= y + Offset(h).1 < height)
    ensures r.Some? ==> r.value == (x + Offset(h).0, y + Offset(h).1)
  {
    match h
    case North => if y != 0 then Some((x, y - 1)) else None
    case East => if x != width - 1 then Some((x + 1, y)) else None
    case South => if y != height - 1 then Some((x, y + 1)) else None
    case West => if x != 0 then Some((x - 1, y)) else None
  }

  /** The index of the tile one step ahead of `pos`, or `None` when the guard faces the edge
      of the grid (`get_next_position`): each arm computes `row * width + column` of the
      moved coordinates. */
  function NextPosition(pos: nat, h: Heading, width: nat, height: nat): (r: Option<nat>)
    requires width > 0 && height > 0
    ensures pos < width * height && r.Some? ==> r.value < width * height
  {
    var x, y := Column(pos, width), Row(pos, width, height);
    match Step(x, y, h, width, height)
    case None => None
    case Some((x', y')) => Some(Index(x', y', width, height))
  }

  /** The step computed on indices agrees with the step on (column, row) coordinates: the
      neighbour exists exactly when the moved coordinates stay inside the grid, and its index
      maps back to those coordinates, so a step never wraps around into another row. */
  lemma NextPositionIsStep(pos: nat, h: Heading, width: nat, height: nat)
    requires width > 0 && height > 0 && pos < width * height
    ensures var x, y := pos % width + Offset(h).0, pos / width + Offset(h).1;
      var r := NextPosition(pos, h, width, height);
      (r.Some? <==> 0 <= x < width && 0 <= y < height)
      && (r.Some? ==> r.value % width == x && r.value / width == y)
  {
    RowBound(pos, width, height);
    var step := Step(pos % width, pos / width, h, width, height);
    if step.Some? {
      Coordinates(step.value.0, step.value.1, width);
    }
  }

  /** The guard's state: the tiles, its position and its heading. */
  datatype Walker = Walker(tiles: seq<Tile>, position: nat, heading: Heading)

  /** A rectangular grid whose guard stands inside it, on a tile marked Visited. */
  predicate WellFormed(width: nat, height: nat, w: Walker)
  {
    width > 0 && height > 0 && |w.tiles| == width * height
    && w.position < |w.tiles| && w.tiles[w.position] == Visited
  }

  /** How a walk ends. `Boxed` is the guard walled in on all four sides: the Rust loop then
      turns forever, since turning records nothing in the visited set. */
  datatype Outcome = Exited | Looped | Boxed

  datatype Patrol = Patrol(outcome: Outcome, last: Walker)

  /** Every (position, heading) pair of the grid. */
  function AllStates(n: nat): (r: set<(nat, Heading)>)
    ensures forall p: nat, h: Heading :: p < n ==> (p, h) in r
  {
    set p: nat, h: Heading | p < n :: (p, h)
  }

  /** Whether the tile ahead in direction `h` exists and is obstructed. */
  predicate Blocked(width: nat, height: nat, w: Walker, h: Heading)
    requires WellFormed(width, height, w)
  {
    var next := NextPosition(w.position, h, width, height);
    next.Some? && w.tiles[next.value] == Obstructed
  }

  /** The walk (`walk`), from a state in which the (position, heading) pairs of `visited` have
      been moved into and the last `turns` steps were turns. A move onto a pair already in
      `visited` is a loop; the fourth turn in a row is `Boxed`. The walk only ever turns an
      Empty tile into a Visited one, and never changes the size of the grid. */
  function WalkFrom(width: nat, height: nat, w: Walker, visited: set<(nat, Heading)>,
                    turns: nat): (r: Patrol)
    requires WellFormed(width, height, w) && visited <= AllStates(width * height) && turns <= 3
    ensures WellFormed(width, height, r.last)
    ensures forall k :: 0 <= k < |w.tiles| ==>
      r.last.tiles[k] == w.tiles[k] || (w.tiles[k] == Empty && r.last.tiles[k] == Visited)
    decreases AllStates(width * height) - visited, 3 - turns
  {
    match NextPosition(w.position, w.heading, width, height)
    case None => Patrol(Exited, w)
    case Some(next) =>
      if w.tiles[next] == Obstructed then
        if turns == 3 then Patrol(Boxed, w)
        else WalkFrom(width, height, w.(heading := TurnRight(w.heading)), visited, turns + 1)
      else if (next, w.heading) in visited then Patrol(Looped, w)
      else
        WalkFrom(width, height, Walker(w.tiles[next := Visited], next, w.heading),
                 visited + {(next, w.heading)}, 0)
  }

  /** A turn at an obstruction changes only the heading and the count of turns. */
  lemma WalkTurns(width: nat, height: nat, w: Walker, visited: set<(nat, Heading)>, turns: nat)
    requires WellFormed(width, height, w) && visited <= AllStates(width * height) && turns < 3
    requires Blocked(width, height, w, w.heading)
    ensures WalkFrom(width, height, w, visited, turns)
         == WalkFrom(width, height, w.(heading := TurnRight(w.heading)), visited, turns + 1)
  {
  }

  /** A move onto a free tile not yet entered with this heading marks it and records it. */
  lemma WalkMoves(width: nat, height: nat, w: Walker, visited: set<(nat, Heading)>, turns: nat)
    requires WellFormed(width, height, w) && visited <= AllStates(width * height) && turns <= 3
    requires var next := NextPosition(w.position, w.heading, width, height);
      next.Some? && w.tiles[next.value] != Obstructed && (next.value, w.heading) !in visited
    ensures var next := NextPosition(w.position, w.heading, width, height).value;
      && visited + {(next, w.heading)} <= AllStates(width * height)
      && WalkFrom(width, height, w, visited, turns)
         == WalkFrom(width, height, Walker(w.tiles[next := Visited], next, w.heading),
                     visited + {(next, w.heading)}, 0)
  {
  }

  /** The walk from a fresh start: nothing visited, no turns yet. */
  function WalkOf(width: nat, height: nat, w: Walker): (r: Patrol)
    requires WellFormed(width, height, w)
    ensures WellFormed(width, height, r.last) && |r.last.tiles| == |w.tiles|
  {
    WalkFrom(width, height, w, {}, 0)
  }

  /** Why a walk stopped: it leaves only when the tile ahead is off the grid; a loop is
      detected only in front of a tile it has already marked; and it is boxed in only when
      all four neighbours of the guard are obstructed. */
  predicate StopsFor(width: nat, height: nat, r: Patrol)
    requires WellFormed(width, height, r.last)
  {
    var next := NextPosition(r.last.position, r.last.heading, width, height);
    (r.outcome == Exited <==> next.None?)
    && (r.outcome == Looped ==> next.Some? && r.last.tiles[next.value] == Visited)
    && (r.outcome == Boxed ==> forall h :: Blocked(width, height, r.last, h))
  }

  /** Every walk stops for one of the reasons of `StopsFor`, from any state whose visited
      pairs are marked and whose last `turns` steps were turns away from obstructions. */
  lemma {:induction false} WalkEnds(width: nat, height: nat, w: Walker,
                                    visited: set<(nat, Heading)>, turns: nat)
    requires WellFormed(width, height, w) && visited <= AllStates(width * height) && turns <= 3
    requires forall p, h :: (p, h) in visited ==> p < |w.tiles| && w.tiles[p] == Visited
    requires turns >= 1 ==> Blocked(width, height, w, TurnLeft(w.heading))
    requires turns >= 2 ==> Blocked(width, height, w, TurnLeft(TurnLeft(w.heading)))
    requires turns >= 3 ==> Blocked(width, height, w, TurnLeft(TurnLeft(TurnLeft(w.heading))))
    ensures StopsFor(width, height, WalkFrom(width, height, w, visited, turns))
    decreases AllStates(width * height) - visited, 3 - turns
  {
    match NextPosition(w.position, w.heading, width, height)
    case None =>
    case Some(next) =>
      if w.tiles[next] == Obstructed {
        if turns == 3 {
          BoxedIn(width, height, w);
        } else {
          var w' := w.(heading := TurnRight(w.heading));
          assert TurnLeft(w'.heading) == w.heading;
          WalkEnds(width, height, w', visited, turns + 1);
        }
      } else if (next, w.heading) !in visited {
        var w' := Walker(w.tiles[next := Visited], next, w.heading);
        WalkEnds(width, height, w', visited + {(next, w.heading)}, 0);
      }
  }

  lemma BoxedIn(width: nat, height: nat, w: Walker)
    requires WellFormed(width, height, w)
    requires Blocked(width, height, w, w.heading)
    requires Blocked(width, height, w, TurnLeft(w.heading))
    requires Blocked(width, height, w, TurnLeft(TurnLeft(w.heading)))
    requires Blocked(width, height, w, TurnLeft(TurnLeft(TurnLeft(w.heading))))
    ensures forall h :: Blocked(width, height, w, h)
  {
    forall h ensures Blocked(width, height, w, h) {
      match h
      case North =>
      case East =>
      case South =>
      case West =>
    }
  }

  /** The number of tiles marked Visited (`part1`'s count). */
  function VisitedCount(tiles: seq<Tile>): nat
  {
    multiset(tiles)[Visited]
  }

  /** `part1`: the number of distinct tiles the guard stands on before leaving the grid or
      looping; `None` where the Rust walk never ends. */
  function Part1Of(width: nat, height: nat, w: Walker): (r: Option<nat>)
    requires WellFormed(width, height, w)
    ensures r.Some? ==> 1 <= r.value <= width * height
  {
    var p := WalkOf(width, height, w);
    VisitedBound(p.last.tiles, p.last.position);
    if p.outcome == Boxed then None else Some(VisitedCount(p.last.tiles))
  }

  lemma VisitedBound(tiles: seq<Tile>, k: nat)
    requires k < |tiles| && tiles[k] == Visited
    ensures 1 <= VisitedCount(tiles) <= |tiles|
  {
    assert tiles[k] in multiset(tiles);
  }

  /** `None` stands for a trial that never ends; otherwise `1 + n` loops of `n` more. */
  function Plus(a: nat, b: Option<nat>): Option<nat>
  {
    if b.Some? then Some(a + b.value) else None
  }

  /** The trials of `part2` over `walked[i..]`: every tile the first walk marked, except the
      start, gets one extra obstruction in a fresh copy of the grid, and the trial counts when
      that walk loops. */
  function Trials(width: nat, height: nat, w: Walker, walked: seq<Tile>, i: nat): Option<nat>
    requires WellFormed(width, height, w) && |walked| == |w.tiles| && i <= |walked|
    decreases |walked| - i
  {
    if i == |walked| then Some(0)
    else
      var rest := Trials(width, height, w, walked, i + 1);
      if walked[i] != Visited || i == w.position then rest
      else
        var trial := WalkOf(width, height, w.(tiles := w.tiles[i := Obstructed])).outcome;
        if trial == Boxed then None
        else if trial == Looped then Plus(1, rest)
        else rest
  }

  lemma TrialsStep(width: nat, height: nat, w: Walker, walked: seq<Tile>, i: nat)
    requires WellFormed(width, height, w) && |walked| == |w.tiles| && i < |walked|
    ensures walked[i] != Visited || i == w.position ==>
      Trials(width, height, w, walked, i) == Trials(width, height, w, walked, i + 1)
    ensures walked[i] == Visited && i != w.position ==>
      var trial := WalkOf(width, height, w.(tiles := w.tiles[i := Obstructed])).outcome;
      Trials(width, height, w, walked, i)
        == if trial == Boxed then None
           else Plus(if trial == Looped then 1 else 0, Trials(width, height, w, walked, i + 1))
  {
  }

  /** `part2`: the number of single new obstructions that trap the guard in a loop. */
  function Part2Of(width: nat, height: nat, w: Walker): Option<nat>
    requires WellFormed(width, height, w)
  {
    var p := WalkOf(width, height, w);
    if p.outcome == Boxed then None else Trials(width, height, w, p.last.tiles, 0)
  }

  /** The trials never count more placements than there are marked tiles after `i`, minus
      the start. */
  lemma {:induction false} TrialsBound(width: nat, height: nat, w: Walker, walked: seq<Tile>,
                                       i: nat)
    requires WellFormed(width, height, w) && |walked| == |w.tiles| && i <= |walked|
    requires walked[w.position] == Visited
    ensures var t := Trials(width, height, w, walked, i);
      t.Some? ==> t.value + (if i <= w.position then 1 else 0) <= multiset(walked[i..])[Visited]
    decreases |walked| - i
  {
    if i < |walked| {
      TrialsBound(width, height, w, walked, i + 1);
      assert walked[i..] == [walked[i]] + walked[i + 1..];
    }
  }

  /** Only tiles of the unobstructed walk other than the start are tried, so `part2` is below
      `part1`. */
  lemma Part2BelowPart1(width: nat, height: nat, w: Walker)
    requires WellFormed(width, height, w)
    ensures Part2Of(width, height, w).Some? ==>
              Part1Of(width, height, w).Some?
              && Part2Of(width, height, w).value < Part1Of(width, height, w).value
  {
    var p := WalkOf(width, height, w);
    if p.outcome != Boxed {
      assert p.last.tiles[w.position] == Visited;
      TrialsBound(width, height, w, p.last.tiles, 0);
      assert p.last.tiles[0..] == p.last.tiles;
    }
  }

  /** An obstruction on a tile the walk never reaches changes nothing: the walk with it ends
      the same way, on the same tiles except the new obstruction. This is why `part2` only
      tries the tiles the unobstructed walk marked. */
  lemma {:induction false} ObstructionOffPath(width: nat, height: nat, w: Walker,
                                              visited: set<(nat, Heading)>, turns: nat, i: nat)
    requires WellFormed(width, height, w) && visited <= AllStates(width * height) && turns <= 3
    requires forall p, h :: (p, h) in visited ==> p < |w.tiles| && w.tiles[p] == Visited
    requires i < |w.tiles| && WalkFrom(width, height, w, visited, turns).last.tiles[i] == Empty
    ensures i != w.position
    ensures var r := WalkFrom(width, height, w, visited, turns);
      var r' := WalkFrom(width, height, w.(tiles := w.tiles[i := Obstructed]), visited, turns);
      r'.outcome == r.outcome && r'.last == r.last.(tiles := r.last.tiles[i := Obstructed])
    decreases AllStates(width * height) - visited, 3 - turns
  {
    var r := WalkFrom(width, height, w, visited, turns);
    assert r.last.tiles[w.position] == Visited;
    assert w.tiles[i] == Empty;
    var w' := w.(tiles := w.tiles[i := Obstructed]);
    match NextPosition(w.position, w.heading, width, height)
    case None =>
    case Some(next) =>
      if w.tiles[next] == Obstructed {
        if turns < 3 {
          ObstructionOffPath(width, height, w.(heading := TurnRight(w.heading)), visited,
                             turns + 1, i);
        }
      } else if (next, w.heading) !in visited {
        var v := Walker(w.tiles[next := Visited], next, w.heading);
        assert r == WalkFrom(width, height, v, visited + {(next, w.heading)}, 0);
        assert v.tiles[next] == Visited;
        assert next != i;
        assert w'.tiles[next := Visited] == v.tiles[i := Obstructed];
        ObstructionOffPath(width, height, v, visited + {(next, w.heading)}, 0, i);
      }
  }

  /** A reference count for `part2` that does not rely on the first walk: every free tile
      other than the start, from `i` on, is tried as the new obstruction. */
  function Placements(width: nat, height: nat, w: Walker, i: nat): Option<nat>
    requires WellFormed(width, height, w) && i <= |w.tiles|
    decreases |w.tiles| - i
  {
    if i == |w.tiles| then Some(0)
    else
      var rest := Placements(width, height, w, i + 1);
      if w.tiles[i] == Obstructed || i == w.position then rest
      else
        var trial := WalkOf(width, height, w.(tiles := w.tiles[i := Obstructed])).outcome;
        if trial == Boxed then None
        else if trial == Looped then Plus(1, rest)
        else rest
  }

  /** When the unobstructed guard leaves the grid, trying only the tiles it marked counts the
      same placements as trying every free tile: an obstruction anywhere else lets it leave
      the same way. */
  lemma {:induction false} TrialsArePlacements(width: nat, height: nat, w: Walker, i: nat)
    requires WellFormed(width, height, w) && i <= |w.tiles|
    requires WalkOf(width, height, w).outcome == Exited
    ensures Trials(width, height, w, WalkOf(width, height, w).last.tiles, i)
         == Placements(width, height, w, i)
    decreases |w.tiles| - i
  {
    if i < |w.tiles| {
      var walked := WalkOf(width, height, w).last.tiles;
      TrialsArePlacements(width, height, w, i + 1);
      if w.tiles[i] != Obstructed && i != w.position && walked[i] != Visited {
        ObstructionOffPath(width, height, w, {}, 0, i);
      }
    }
  }

  /** `part2` counts exactly the free tiles, start excluded, whose obstruction traps the
      guard, whenever the unobstructed guard leaves the grid. */
  lemma Part2CountsPlacements(width: nat, height: nat, w: Walker)
    requires WellFormed(width, height, w)
    ensures WalkOf(width, height, w).outcome == Exited ==>
      Part2Of(width, height, w) == Placements(width, height, w, 0)
  {
    if WalkOf(width, height, w).outcome == Exited {
      TrialsArePlacements(width, height, w, 0);
    }
  }

  /** The grid as `parse` leaves it and `walk` changes it in place. */
  class Lab {
    var tiles: seq<Tile>
    var position: nat
    var heading: Heading
    const width: nat
    const height: nat

    function Snapshot(): Walker
      reads this
    {
      Walker(tiles, position, heading)
    }

    predicate Valid()
      reads this
    {
      WellFormed(width, height, Snapshot())
    }

    constructor (tiles: seq<Tile>, position: nat, heading: Heading, width: nat, height: nat)
      ensures this.tiles == tiles && this.position == position && this.heading == heading
      ensures this.width == width && this.height == height
    {
      this.tiles := tiles;
      this.position := position;
      this.heading := heading;
      this.width := width;
      this.height := height;
    }

    /** `#[derive(Clone)]`. */
    method Clone() returns (c: Lab)
      ensures fresh(c) && c.Snapshot() == Snapshot()
      ensures c.width == width && c.height == height
    {
      c := new Lab(tiles, position, heading, width, height);
    }

    /** `walk`, which returns `true` for `Exited` and `false` for `Looped`. */
    method Walk() returns (outcome: Outcome)
      requires Valid()
      modifies this
      ensures Valid()
      ensures Patrol(outcome, Snapshot()) == WalkOf(width, height, old(Snapshot()))
    {
      ghost var start := Snapshot();
      var visited: set<(nat, Heading)> := {};
      var turns := 0;
      while true
        invariant Valid() && visited <= AllStates(width * height) && turns <= 3
        invariant WalkFrom(width, height, Snapshot(), visited, turns) == WalkOf(width, height, start)
        decreases AllStates(width * height) - visited, 3 - turns
      {
        var next := NextPosition(position, heading, width, height);
        if next.None? {
          return Exited;
        }
        if tiles[next.value] == Obstructed {
          if turns == 3 {
            return Boxed;
          }
          WalkTurns(width, height, Snapshot(), visited, turns);
          heading := TurnRight(heading);
          turns := turns + 1;
        } else {
          if (next.value, heading) in visited {
            return Looped;
          }
          WalkMoves(width, height, Snapshot(), visited, turns);
          visited := visited + {(next.value, heading)};
          tiles := tiles[next.value := Visited];
          position := next.value;
          turns := 0;
        }
      }
    }
  }

  /** `part1` on a copy of the parsed grid, which is left as it was. */
  method Part1(input: Lab) returns (r: Option<nat>)
    requires input.Valid()
    ensures r == Part1Of(input.width, input.height, input.Snapshot())
  {
    var lab := input.Clone();
    var outcome := lab.Walk();
    if outcome == Boxed {
      return None;
    }
    return Some(VisitedCount(lab.tiles));
  }

  /** `part2`, the trials run one after another on fresh copies of the parsed grid. */
  method Part2(input: Lab) returns (r: Option<nat>)
    requires input.Valid()
    ensures r == Part2Of(input.width, input.height, input.Snapshot())
  {
    var lab := input.Clone();
    var outcome := lab.Walk();
    if outcome == Boxed {
      return None;
    }
    r := CountLoops(input.width, input.height, input.Snapshot(), lab.tiles);
  }

  /** One trial of `part2`: a fresh grid from `start` with one more obstruction at `i`,
      walked to its end. */
  method Trial(width: nat, height: nat, start: Walker, i: nat) returns (o: Outcome)
    requires WellFormed(width, height, start) && i < |start.tiles| && i != start.position
    ensures o == WalkOf(width, height, start.(tiles := start.tiles[i := Obstructed])).outcome
  {
    var trial := new Lab(start.tiles[i := Obstructed], start.position, start.heading,
                         width, height);
    o := trial.Walk();
  }

  /** The trials of `part2` over the tiles `walked` marked by the unobstructed walk, each on
      a fresh grid built from `start`. */
  method CountLoops(width: nat, height: nat, start: Walker, walked: seq<Tile>)
    returns (r: Option<nat>)
    requires WellFormed(width, height, start) && |walked| == |start.tiles|
    ensures r == Trials(width, height, start, walked, 0)
  {
    var count := 0;
    var i := 0;
    while i < |walked|
      invariant i <= |walked|
      invariant Trials(width, height, start, walked, 0)
        == Plus(count, Trials(width, height, start, walked, i))
    {
      TrialsStep(width, height, start, walked, i);
      if walked[i] == Visited && i != start.position {
        var o := Trial(width, height, start, i);
        if o == Boxed {
          return None;
        }
        if o == Looped {
          count := count + 1;
        }
      }
      i := i + 1;
    }
    return Some(count);
  }

  datatype ParseError = NoLines | NoStart

  /** The tile a character of the map stands for; other characters (line breaks) are skipped. */
  function TileOf(c: char): Option<Tile>
  {
    match c
    case '.' => Some(Empty)
    case '#' => Some(Obstructed)
    case '^' => Some(Visited)
    case _ => None
  }

  /** The tiles of a map in reading order. */
  function TilesOf(s: string): seq<Tile>
  {
    if s == [] then []
    else
      var init, c := s[..|s| - 1], s[|s| - 1];
      TilesOf(init) + (if TileOf(c).Some? then [TileOf(c).value] else [])
  }

  /** Counting the characters of a map counts its tiles. */
  lemma {:induction false} TilesOfCounts(s: string)
    ensures TileCounts(s)
  {
    if s != [] {
      TilesOfCounts(s[..|s| - 1]);
      TileCountsLast(s);
    }
  }

  /** One tile per '.', '#' or '^', and exactly the '^' and '#' characters give the Visited and
      Obstructed tiles. */
  predicate TileCounts(s: string)
  {
    && |TilesOf(s)| == multiset(s)['.'] + multiset(s)['#'] + multiset(s)['^']
    && multiset(TilesOf(s))[Visited] == multiset(s)['^']
    && multiset(TilesOf(s))[Obstructed] == multiset(s)['#']
  }

  lemma TileCountsLast(s: string)
    requires s != [] && TileCounts(s[..|s| - 1])
    ensures TileCounts(s)
  {
    var init, c := s[..|s| - 1], s[|s| - 1];
    CountLast(s, '.');
    CountLast(s, '#');
    CountLast(s, '^');
    var last := if TileOf(c).Some? then [TileOf(c).value] else [];
    CountAppend(TilesOf(init), last, Visited);
    CountAppend(TilesOf(init), last, Obstructed);
    TileOfChars(c);
  }

  lemma CountLast<T>(s: seq<T>, x: T)
    requires s != []
    ensures multiset(s)[x] == multiset(s[..|s| - 1])[x] + if s[|s| - 1] == x then 1 else 0
  {
    assert s == s[..|s| - 1] + [s[|s| - 1]];
  }

  lemma CountAppend<T>(s: seq<T>, t: seq<T>, x: T)
    ensures multiset(s + t)[x] == multiset(s)[x] + multiset(t)[x]
  {
  }

  lemma TileOfChars(c: char)
    ensures TileOf(c).Some? <==> c == '.' || c == '#' || c == '^'
    ensures TileOf(c) == Some(Visited) <==> c == '^'
    ensures TileOf(c) == Some(Obstructed) <==> c == '#'
  {
  }

  /** A character a map may hold: a tile or a line break. */
  predicate MapChar(c: char)
  {
    TileOf(c).Some? || c == '\n'
  }

  /** A map made of tiles and line breaks only, with a start, whose lines are all as wide as
      the first one and that one is not empty. */
  predicate WellShaped(input: string)
  {
    && input != []
    && (forall k :: 0 <= k < |input| ==> MapChar(input[k]))
    && |Lines(input)[0]| > 0
    && SameWidth(Lines(input), |Lines(input)[0]|)
  }

  /** In a map of tiles and line breaks, every character but the line breaks is a tile. */
  lemma {:induction false} TilesOfLength(s: string)
    requires forall k :: 0 <= k < |s| ==> MapChar(s[k])
    ensures |TilesOf(s)| == |Remove(s, '\n')|
    decreases |s|
  {
    if s != [] {
      var init, c := s[..|s| - 1], s[|s| - 1];
      assert s == init + [c];
      TilesOfLength(init);
      RemoveAppend(init, [c], '\n');
      assert Remove([c], '\n') == if c == '\n' then [] else [c];
    }
  }

  /** A well-shaped map holds one tile per cell of its `width` by `height` grid. */
  lemma ShapedTiles(input: string)
    requires WellShaped(input)
    ensures |TilesOf(input)| == |Lines(input)[0]| * |Lines(input)|
  {
    ConcatLines(input);
    ConcatSameWidth(Lines(input), |Lines(input)[0]|);
    TilesOfLength(input);
  }

  /** `k` is the last Visited tile, where the last '^' of the map was. */
  predicate IsLastStart(tiles: seq<Tile>, k: nat)
  {
    k < |tiles| && tiles[k] == Visited && forall j :: k < j < |tiles| ==> tiles[j] != Visited
  }

  lemma TilesOfSnoc(s: string, c: char)
    ensures TilesOf(s + [c]) == TilesOf(s) + if TileOf(c).Some? then [TileOf(c).value] else []
  {
    assert (s + [c])[..|s|] == s;
  }

  lemma PrefixSnoc<T>(s: seq<T>, i: nat, x: T)
    requires i < |s|
    ensures s[..i + 1] == s[..i] + [s[i]]
    ensures x in s[..i + 1] <==> x in s[..i] || s[i] == x
  {
    assert s[..i + 1] == s[..i] + [s[i]];
  }

  lemma LastStartSnoc(tiles: seq<Tile>, k: nat, t: Tile)
    requires IsLastStart(tiles, k) && t != Visited
    ensures IsLastStart(tiles + [t], k)
  {
  }

  /** The scan of `parse` over the characters: the tiles and the index of the last start. */
  method ScanTiles(input: string) returns (tiles: seq<Tile>, start: Option<nat>)
    ensures tiles == TilesOf(input)
    ensures start.None? <==> '^' !in input
    ensures start.Some? ==> IsLastStart(tiles, start.value)
  {
    tiles, start := [], None;
    var i := 0;
    while i < |input|
      invariant i <= |input|
      invariant tiles == TilesOf(input[..i])
      invariant start.None? <==> '^' !in input[..i]
      invariant start.Some? ==> IsLastStart(tiles, start.value)
    {
      PrefixSnoc(input, i, '^');
      TilesOfSnoc(input[..i], input[i]);
      TileOfChars(input[i]);
      var t := TileOf(input[i]);
      if t.Some? {
        if t.value == Visited {
          start := Some(|tiles|);
        } else if start.Some? {
          LastStartSnoc(tiles, start.value, t.value);
        }
        tiles := tiles + [t.value];
      }
      i := i + 1;
    }
    assert input[..i] == input;
  }

  /** `parse`: the tiles in reading order, the guard on the last '^' facing north, the width
      of the first line and the number of lines. An empty input has no first line and a map
      without '^' has no start; both are errors. */
  method Parse(input: string) returns (r: Result<Lab, ParseError>)
    ensures r.Err? <==> input == [] || '^' !in input
    ensures r.Err? ==> r.error == if input == [] then NoLines else NoStart
    ensures r.Ok? ==> fresh(r.value) && r.value.tiles == TilesOf(input)
    ensures r.Ok? ==> r.value.heading == North
    ensures r.Ok? ==> r.value.width == |Lines(input)[0]| && r.value.height == |Lines(input)|
    ensures r.Ok? ==> IsLastStart(r.value.tiles, r.value.position)
    ensures r.Ok? && WellShaped(input) ==> r.value.Valid()
  {
    var lines := Lines(input);
    if lines == [] {
      return Err(NoLines);
    }
    var tiles, start := ScanTiles(input);
    if start.None? {
      return Err(NoStart);
    }
    if WellShaped(input) {
      ShapedTiles(input);
    }
    var lab := new Lab(tiles, start.value, North, |lines[0]|, |lines|);
    return Ok(lab);
  }
}
