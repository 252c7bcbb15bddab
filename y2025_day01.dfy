/** 2025 day 1: a safe's dial starts at 50 and is turned left or right by the rotations of the
    input. Part 1 counts the rotations after which the dial points at a multiple of 100; part 2
    counts every time a multiple of 100 is passed over or landed on. The dial is a running sum
    that is never wrapped, and "pointing at zero" means sitting on a multiple of 100. */
module DialRotation {
  import opened Wrappers
  import opened Bytes
  import opened Text
  import opened Decimal

  const I32_MIN: int := -0x8000_0000
  const I32_MAX: int := 0x7FFF_FFFF

  const LEFT: byte := 76
  const RIGHT: byte := 82

  /** Where the dial starts. */
  const START: int := 50

  /** `try_parse_rotation`: a direction byte 'L' or 'R' followed by an `i32` amount as the
      `atoi` crate reads it; a left turn is negative. An empty line, an amount `atoi` rejects
      or any other direction byte is an error, and so is a left turn by `i32::MIN`, whose
      negation overflows `i32` (a panic in debug builds). Every rotation read fits an `i32`. */
  function TryParseRotation(line: seq<byte>): (r: Result<int, ()>)
    ensures r.Ok? ==> I32_MIN <= r.value <= I32_MAX
    ensures line == [] ==> r.Err?
    ensures line != [] && line[0] != LEFT && line[0] != RIGHT ==> r.Err?
    ensures line != [] && Atoi(line[1..], I32_MIN, I32_MAX).None? ==> r.Err?
    ensures line != [] && line[0] == LEFT && Atoi(line[1..], I32_MIN, I32_MAX) == Some(I32_MIN) ==> r.Err?
    ensures r.Ok? && line[0] == LEFT ==> r.value == -Atoi(line[1..], I32_MIN, I32_MAX).value
    ensures r.Ok? && line[0] == RIGHT ==> r.value == Atoi(line[1..], I32_MIN, I32_MAX).value
  {
    if line == [] then Err(())
    else
      match Atoi(line[1..], I32_MIN, I32_MAX)
      case None => Err(())
      case Some(amount) =>
        if line[0] == LEFT then (if amount == I32_MIN then Err(()) else Ok(-amount))
        else if line[0] == RIGHT then Ok(amount)
        else Err(())
  }

  /** A rotation as the puzzle writes it: 'L' and the size of a left turn, 'R' and the size of
      any other. */
  function Encode(rotation: int): seq<byte>
  {
    if rotation < 0 then [LEFT] + ToBytes(-rotation) else [RIGHT] + ToBytes(rotation)
  }

  /** Every rotation whose size fits an `i32` reads back from its written form. */
  lemma RotationRoundTrip(rotation: int)
    requires -I32_MAX <= rotation <= I32_MAX
    ensures TryParseRotation(Encode(rotation)) == Ok(rotation)
  {
    var line := Encode(rotation);
    var size := if rotation < 0 then -rotation else rotation;
    assert line[1..] == ToBytes(size) + [];
    AtoiToBytes(size, [], I32_MIN, I32_MAX);
  }

  /** A turn whose amount reads as `i32::MIN` ("-2147483648"): to the right it is that
      rotation, to the left its negation does not fit an `i32` and the line is an error. */
  lemma MinimumAmount(amount: seq<byte>)
    requires Atoi(amount, I32_MIN, I32_MAX) == Some(I32_MIN)
    ensures TryParseRotation([LEFT] + amount) == Err(())
    ensures TryParseRotation([RIGHT] + amount) == Ok(I32_MIN)
  {
    assert ([LEFT] + amount)[1..] == amount;
    assert ([RIGHT] + amount)[1..] == amount;
  }

  /** The `collect` of `parse` over the non-empty lines: every one must be a rotation (the
      `expect` is the error). */
  function ParseRotations(lines: seq<seq<byte>>): (r: Option<seq<int>>)
    ensures r.Some? <==> forall k :: 0 <= k < |lines| ==> TryParseRotation(lines[k]).Ok?
    ensures r.Some? ==> |r.value| == |lines|
    ensures r.Some? ==> forall k :: 0 <= k < |lines| ==> TryParseRotation(lines[k]) == Ok(r.value[k])
  {
    if lines == [] then Some([])
    else
      match TryParseRotation(lines[0])
      case Err(_) => None
      case Ok(rotation) =>
        var rest := lines[1..];
        assert forall k :: 1 <= k < |lines| ==> lines[k] == rest[k - 1];
        match ParseRotations(rest)
        case None => None
        case Some(rotations) => Some([rotation] + rotations)
  }

  /** `parse`: the lines between newlines; the empty ones are skipped and the others read as
      rotations. */
  function Parse(input: seq<byte>): Option<seq<int>>
  {
    ParseRotations(NonEmpty(Split(input, NEWLINE)))
  }

  /** The written rotations, one per line, read back. */
  lemma {:induction false} EncodedLines(lines: seq<seq<byte>>, rotations: seq<int>)
    requires |lines| == |rotations|
    requires forall k :: 0 <= k < |lines| ==> -I32_MAX <= rotations[k] <= I32_MAX
    requires forall k :: 0 <= k < |lines| ==> lines[k] == Encode(rotations[k])
    ensures forall k :: 0 <= k < |lines| ==> |lines[k]| > 0
    ensures ParseRotations(lines) == Some(rotations)
  {
    forall k | 0 <= k < |lines| ensures TryParseRotation(lines[k]) == Ok(rotations[k]) {
      RotationRoundTrip(rotations[k]);
    }
    var r := ParseRotations(lines);
    assert r.value == rotations;
  }

  /** Empty lines before or after the written rotations are skipped. */
  lemma ParseSkipsEmptyLines(lines: seq<seq<byte>>, rotations: seq<int>)
    requires |lines| == |rotations|
    requires forall k :: 0 <= k < |lines| ==> -I32_MAX <= rotations[k] <= I32_MAX
    requires forall k :: 0 <= k < |lines| ==> lines[k] == Encode(rotations[k])
    ensures ParseRotations(NonEmpty(lines + [[]])) == Some(rotations)
    ensures ParseRotations(NonEmpty([[]] + lines)) == Some(rotations)
  {
    EncodedLines(lines, rotations);
    NonEmptyKeepsFull(lines);
  }

  /** The number of rotations, starting from `dial`, after which the dial points at a multiple
      of 100. */
  function Landings(dial: int, rotations: seq<int>): (n: nat)
    ensures n <= |rotations|
    decreases |rotations|
  {
    if rotations == [] then 0
    else
      var next := dial + rotations[0];
      (if next % 100 == 0 then 1 else 0) + Landings(next, rotations[1..])
  }

  /** The sum of the rotations. */
  function Total(rotations: seq<int>): int
  {
    if rotations == [] then 0 else Total(rotations[..|rotations| - 1]) + rotations[|rotations| - 1]
  }

  /** `part1`: the dial is moved by each rotation in turn and counted when it sits on a
      multiple of 100 (Rust's remainder is zero exactly when Dafny's is). */
  method Part1(rotations: seq<int>) returns (count: nat)
    ensures count == Landings(START, rotations)
  {
    var dial := START;
    count := 0;
    for i := 0 to |rotations|
      invariant dial == START + Total(rotations[..i])
      invariant count + Landings(dial, rotations[i..]) == Landings(START, rotations)
    {
      assert rotations[..i + 1][..i] == rotations[..i];
      assert rotations[i..][1..] == rotations[i + 1..];
      dial := dial + rotations[i];
      if dial % 100 == 0 {
        count := count + 1;
      }
    }
  }

  /** The number of multiples of 100 in the interval `(a, b]`, counted one position at a
      time. */
  function Hits(a: int, b: int): nat
    requires a <= b
    decreases b - a
  {
    if a == b then 0 else Hits(a, b - 1) + (if b % 100 == 0 then 1 else 0)
  }

  /** How many multiples of 100 a rotation from `dial` passes over or lands on: for a right
      turn the positions `dial + 1` to `dial + rotation`, for a left turn `dial - 1` down to
      `dial + rotation`. Leaving a multiple of 100 is not passing it. */
  function Passes(dial: int, rotation: int): nat
  {
    if rotation >= 0 then Hits(dial, dial + rotation) else Hits(dial + rotation - 1, dial - 1)
  }

  /** The clicks of one rotation as the closure of `part2` computes them: the distance between
      the hundreds the dial was and is in, one more when a left turn lands on a multiple of
      100, and one less when a left turn starts on one. */
  function Clicks(previous: int, rotation: int): (clicks: int)
  {
    var dial := previous + rotation;
    var hundreds := previous / 100 - dial / 100;
    var clicks := if hundreds < 0 then -hundreds else hundreds;
    var clicks := if rotation < 0 && dial % 100 == 0 then clicks + 1 else clicks;
    if rotation < 0 && previous % 100 == 0 then clicks - 1 else clicks
  }

  /** The final decrement of the closure never goes below zero: a left turn from a multiple of
      100 always leaves its hundred. */
  lemma ClicksNoUnderflow(previous: int, rotation: int)
    requires rotation < 0 && previous % 100 == 0
    ensures previous / 100 - (previous + rotation) / 100 >= 1
  {
    var q := previous / 100;
    assert previous == 100 * q;
    assert previous + rotation < 100 * q;
  }

  /** The floor of `x / 100` goes up by one exactly at a multiple of 100. */
  lemma FloorStep(x: int)
    ensures x / 100 - (x - 1) / 100 == (if x % 100 == 0 then 1 else 0)
  {
    var q, r := x / 100, x % 100;
    assert x == 100 * q + r;
    if r == 0 {
      assert x - 1 == 100 * (q - 1) + 99;
    } else {
      assert x - 1 == 100 * q + (r - 1);
    }
  }

  /** Counting one position at a time agrees with the difference of floors. */
  lemma {:induction false} HitsAreFloors(a: int, b: int)
    requires a <= b
    ensures Hits(a, b) == b / 100 - a / 100
    decreases b - a
  {
    if a < b {
      HitsAreFloors(a, b - 1);
      FloorStep(b);
    }
  }

  /** The closure's formula counts exactly the multiples of 100 the rotation passes over or
      lands on. */
  lemma ClicksArePasses(previous: int, rotation: int)
    ensures Clicks(previous, rotation) == Passes(previous, rotation)
  {
    var dial := previous + rotation;
    if rotation >= 0 {
      HitsAreFloors(previous, dial);
    } else {
      HitsAreFloors(dial - 1, previous - 1);
      FloorStep(dial);
      FloorStep(previous);
    }
  }

  /** The clicks of all rotations, starting from `dial`. */
  function ClickTotal(dial: int, rotations: seq<int>): nat
    decreases |rotations|
  {
    if rotations == [] then 0
    else Passes(dial, rotations[0]) + ClickTotal(dial + rotations[0], rotations[1..])
  }

  /** `part2`: the clicks of every rotation, summed. Each rotation's clicks are computed with
      the closure's formula on a `u64` counter, which never underflows. */
  method Part2(rotations: seq<int>) returns (total: nat)
    ensures total == ClickTotal(START, rotations)
  {
    var dial := START;
    total := 0;
    for i := 0 to |rotations|
      invariant total + ClickTotal(dial, rotations[i..]) == ClickTotal(START, rotations)
    {
      assert rotations[i..][1..] == rotations[i + 1..];
      var rotation := rotations[i];
      var previous := dial;
      dial := dial + rotation;
      var hundreds := previous / 100 - dial / 100;
      var clicks: nat := if hundreds < 0 then -hundreds else hundreds;
      if rotation < 0 && dial % 100 == 0 {
        clicks := clicks + 1;
      }
      if rotation < 0 && previous % 100 == 0 {
        ClicksNoUnderflow(previous, rotation);
        clicks := clicks - 1;
      }
      assert clicks == Clicks(previous, rotation);
      ClicksArePasses(previous, rotation);
      total := total + clicks;
    }
  }

  /** A rotation that moves the dial and lands on a multiple of 100 passes at least that
      one. */
  lemma LandingIsPass(dial: int, rotation: int)
    requires rotation != 0 && (dial + rotation) % 100 == 0
    ensures Passes(dial, rotation) >= 1
  {
    ClicksArePasses(dial, rotation);
    if rotation > 0 {
      FloorStep(dial + rotation);
      assert (dial + rotation - 1) / 100 >= dial / 100;
    } else {
      FloorStep(dial + rotation);
    }
  }

  /** With no rotation of size zero, every landing counted by part 1 is a click of part 2. */
  lemma {:induction false} LandingsAtMostClicks(dial: int, rotations: seq<int>)
    requires forall k :: 0 <= k < |rotations| ==> rotations[k] != 0
    ensures Landings(dial, rotations) <= ClickTotal(dial, rotations)
    decreases |rotations|
  {
    if rotations != [] {
      if (dial + rotations[0]) % 100 == 0 {
        LandingIsPass(dial, rotations[0]);
      }
      LandingsAtMostClicks(dial + rotations[0], rotations[1..]);
    }
  }

  /** A rotation of size zero is a landing of part 1 (when the dial already sits on a
      multiple of 100) but never a click of part 2. */
  lemma ZeroRotationLandsWithoutClick(dial: int)
    requires dial % 100 == 0
    ensures Landings(dial, [0]) == 1 && ClickTotal(dial, [0]) == 0
  {
    assert [0][1..] == [];
  }

  /** The clicks of the closure's own checks, one rotation each: from 50, L150 clicks twice,
      R50 once and L50 once. */
  lemma ClickExamples()
    ensures ClickTotal(START, [-150]) == 2
    ensures ClickTotal(START, [50]) == 1
    ensures ClickTotal(START, [-50]) == 1
  {
    ClicksArePasses(50, -150);
    ClicksArePasses(50, 50);
    ClicksArePasses(50, -50);
  }

  /** From 50, L26 L24 L122 click twice: on landing at 0 and on passing -100. */
  lemma ClickChainExample()
    ensures ClickTotal(START, [-26, -24, -122]) == 2
  {
    ClicksArePasses(50, -26);
    ClicksArePasses(24, -24);
    ClicksArePasses(0, -122);
    assert [-26, -24, -122][1..] == [-24, -122];
    assert [-24, -122][1..] == [-122];
  }
}
