/** Advent of Code 2023, day 1 ("Trebuchet?!"): the calibration value of a line is its
    first digit times ten plus its last digit; in part two a spelled-out digit word counts
    as a digit too. The input is read as bytes. */
module CalibrationDigits {
  import opened Wrappers
  import opened Bytes
  import opened Text
  import opened Decimal

  /** The value of a digit byte, `None` for any other byte. */
  function DigitValue(b: byte): (r: Option<nat>)
    ensures r.Some? <==> IsDigitByte(b)
    ensures r.Some? ==> r.value <= 9 && r.value == (b - ZERO) as nat
  {
    if IsDigitByte(b) then Some((b - ZERO) as nat) else None
  }

  /** The bytes as they come after the first split; the model of the parse as written drops
      the last byte whatever it is, and the empty input has no last byte to drop. */
  function ParseAsWritten(input: seq<byte>): (r: Option<seq<byte>>)
    ensures r.None? <==> input == []
    ensures r.Some? ==> r.value == input[..|input| - 1]
  {
    if input == [] then None else Some(input[..|input| - 1])
  }

  /** The parse as its comment describes it: the final newline removed, so that splitting
      yields no empty last line; other input is kept whole. */
  function Parse(input: seq<byte>): (r: seq<byte>)
  {
    if input != [] && input[|input| - 1] == NEWLINE then input[..|input| - 1] else input
  }

  /** Only a final newline goes: every other byte of the input is kept, in place. */
  lemma ParseKeepsContent(input: seq<byte>)
    ensures Parse(input) == input || Parse(input) + [NEWLINE] == input
    ensures forall i :: 0 <= i < |input| && input[i] != NEWLINE ==> i < |Parse(input)| && Parse(input)[i] == input[i]
  {
  }

  /** On input ending with a newline (the puzzle's real inputs), both parses agree. */
  lemma ParsesAgreeOnNewline(input: seq<byte>)
    requires input != [] && input[|input| - 1] == NEWLINE
    ensures ParseAsWritten(input) == Some(Parse(input))
  {
  }

  /** `find_map` from the front: the first digit byte of the line. */
  function FirstDigit(line: seq<byte>): (r: Option<nat>)
    ensures r.Some? ==> r.value <= 9
  {
    if line == [] then None
    else if IsDigitByte(line[0]) then DigitValue(line[0])
    else FirstDigit(line[1..])
  }

  /** `FirstDigit` is `None` exactly when the line holds no digit, and otherwise the value of a
      digit with none before it. */
  lemma {:induction false} FirstDigitSpec(line: seq<byte>)
    ensures FirstDigit(line).None? <==> forall i :: 0 <= i < |line| ==> !IsDigitByte(line[i])
    ensures FirstDigit(line).Some? ==>
      exists i :: 0 <= i < |line| && DigitValue(line[i]) == FirstDigit(line)
                  && forall j :: 0 <= j < i ==> !IsDigitByte(line[j])
  {
    if line != [] && !IsDigitByte(line[0]) {
      var rest := line[1..];
      FirstDigitSpec(rest);
      assert forall i :: 1 <= i < |line| ==> line[i] == rest[i - 1];
      if FirstDigit(rest).Some? {
        var i :| 0 <= i < |rest| && DigitValue(rest[i]) == FirstDigit(rest)
                 && forall j :: 0 <= j < i ==> !IsDigitByte(rest[j]);
        assert DigitValue(line[i + 1]) == FirstDigit(line);
        assert forall j :: 0 <= j < i + 1 ==> !IsDigitByte(line[j]);
      }
    }
  }

  /** `find_map` over the reversed line: the last digit byte. */
  function LastDigit(line: seq<byte>): (r: Option<nat>)
    ensures r.Some? ==> r.value <= 9
  {
    if line == [] then None
    else if IsDigitByte(line[|line| - 1]) then DigitValue(line[|line| - 1])
    else LastDigit(line[..|line| - 1])
  }

  /** `LastDigit` is `None` exactly when the line holds no digit, and otherwise the value of a
      digit with none after it. */
  lemma {:induction false} LastDigitSpec(line: seq<byte>)
    ensures LastDigit(line).None? <==> forall i :: 0 <= i < |line| ==> !IsDigitByte(line[i])
    ensures LastDigit(line).Some? ==>
      exists i :: 0 <= i < |line| && DigitValue(line[i]) == LastDigit(line)
                  && forall j :: i < j < |line| ==> !IsDigitByte(line[j])
  {
    if line != [] && !IsDigitByte(line[|line| - 1]) {
      var init := line[..|line| - 1];
      LastDigitSpec(init);
      assert forall i :: 0 <= i < |init| ==> line[i] == init[i];
      if LastDigit(init).Some? {
        var i :| 0 <= i < |init| && DigitValue(init[i]) == LastDigit(init)
                 && forall j :: i < j < |init| ==> !IsDigitByte(init[j]);
        assert DigitValue(line[i]) == LastDigit(line);
        assert forall j :: i < j < |line| ==> !IsDigitByte(line[j]);
      }
    }
  }

  /** A line's part-one value; a line without digits is worth 0. */
  function Value1(line: seq<byte>): (v: nat)
    ensures v <= 99
  {
    var left := match FirstDigit(line) case Some(d) => d case None => 0;
    var right := match LastDigit(line) case Some(d) => d case None => 0;
    left * 10 + right
  }

  function SumValues1(lines: seq<seq<byte>>): (r: nat)
    ensures r <= 99 * |lines|
  {
    if lines == [] then 0 else Value1(lines[0]) + SumValues1(lines[1..])
  }

  /** `part1`: the values of the lines between newlines, summed; at most 99 for each line,
      and there is one line more than there are newlines. */
  function Part1(parsed: seq<byte>): (r: nat)
    ensures r <= 99 * (multiset(parsed)[NEWLINE] + 1)
  {
    SumValues1(Split(parsed, NEWLINE))
  }

  /** The as-written parse loses the last digit of an input without a final newline:
      "1abc2" (the bytes 49 97 98 99 50) is worth 11 instead of 12. */
  lemma DroppedFinalDigit()
    ensures ParseAsWritten([49, 97, 98, 99, 50]) == Some([49, 97, 98, 99])
    ensures Part1([49, 97, 98, 99]) == 11
    ensures Part1(Parse([49, 97, 98, 99, 50])) == 12
  {
    var whole: seq<byte> := [49, 97, 98, 99, 50];
    var cut: seq<byte> := [49, 97, 98, 99];
    assert whole[..4] == cut;
    assert Parse(whole) == whole;
    SingleLine(cut);
    SingleLine(whole);
    FirstDigitAt(cut, 0);
    LastDigitAt(cut, 0);
    FirstDigitAt(whole, 0);
    LastDigitAt(whole, 4);
  }

  /** A text without a newline is one line. */
  lemma SingleLine(s: seq<byte>)
    requires NEWLINE !in s
    ensures Part1(s) == Value1(s)
  {
    assert Split(s, NEWLINE) == [s];
    assert SumValues1([s]) == Value1(s) + SumValues1([]);
  }

  /** Spelled-out digits with their values, tried in order. */
  type WordTable = seq<(seq<byte>, nat)>

  /** No word of the table is empty, and each stands for a single digit. */
  predicate NonEmptyWords(words: WordTable)
  {
    forall k :: 0 <= k < |words| ==> |words[k].0| > 0 && words[k].1 <= 9
  }

  /** The spelled-out digits, in the order they are tried. */
  function DigitWords(): (table: WordTable)
    ensures |table| == 9 && NonEmptyWords(table)
    ensures forall k :: 0 <= k < 9 ==> table[k].1 == k + 1 && |table[k].0| >= 3
  {
    [(FromAscii("one"), 1), (FromAscii("two"), 2), (FromAscii("three"), 3),
     (FromAscii("four"), 4), (FromAscii("five"), 5), (FromAscii("six"), 6),
     (FromAscii("seven"), 7), (FromAscii("eight"), 8), (FromAscii("nine"), 9)]
  }

  predicate StartsWith(s: seq<byte>, w: seq<byte>)
  {
    |w| <= |s| && s[..|w|] == w
  }

  predicate EndsWith(s: seq<byte>, w: seq<byte>)
  {
    |w| <= |s| && s[|s| - |w|..] == w
  }

  /** The value of the first word of the table that `s` starts with. */
  function WordStarting(s: seq<byte>, table: seq<(seq<byte>, nat)>): (r: Option<nat>)
    ensures r.None? <==> forall k :: 0 <= k < |table| ==> !StartsWith(s, table[k].0)
    ensures r.Some? ==> exists k :: 0 <= k < |table| && StartsWith(s, table[k].0) && r.value == table[k].1
  {
    if table == [] then None
    else if StartsWith(s, table[0].0) then Some(table[0].1)
    else
      var r := WordStarting(s, table[1..]);
      assert forall k :: 1 <= k < |table| ==> table[k] == table[1..][k - 1];
      r
  }

  /** The value of the first word of the table that `s` ends with. */
  function WordEnding(s: seq<byte>, table: seq<(seq<byte>, nat)>): (r: Option<nat>)
    ensures r.None? <==> forall k :: 0 <= k < |table| ==> !EndsWith(s, table[k].0)
    ensures r.Some? ==> exists k :: 0 <= k < |table| && EndsWith(s, table[k].0) && r.value == table[k].1
  {
    if table == [] then None
    else if EndsWith(s, table[0].0) then Some(table[0].1)
    else
      var r := WordEnding(s, table[1..]);
      assert forall k :: 1 <= k < |table| ==> table[k] == table[1..][k - 1];
      r
  }

  /** The digit that begins at `at`: a digit byte, or else a digit word. */
  function DigitStarting(words: WordTable, line: seq<byte>, at: nat): (r: Option<nat>)
    requires at < |line|
    ensures NonEmptyWords(words) && r.Some? ==> r.value <= 9
  {
    match DigitValue(line[at])
    case Some(d) => Some(d)
    case None => WordStarting(line[at..], words)
  }

  /** The digit that ends just before `end`: a digit byte, or else a digit word. */
  function DigitEnding(words: WordTable, line: seq<byte>, end: nat): (r: Option<nat>)
    requires 0 < end <= |line|
    ensures NonEmptyWords(words) && r.Some? ==> r.value <= 9
  {
    match DigitValue(line[end - 1])
    case Some(d) => Some(d)
    case None => WordEnding(line[..end], words)
  }

  /** The digit beginning at the smallest position from `at` on. */
  function LeftFrom(words: WordTable, line: seq<byte>, at: nat): (r: Option<nat>)
    requires at <= |line|
    ensures NonEmptyWords(words) && r.Some? ==> r.value <= 9
    decreases |line| - at
  {
    if at == |line| then None
    else if DigitStarting(words, line, at).Some? then DigitStarting(words, line, at)
    else LeftFrom(words, line, at + 1)
  }

  /** `LeftFrom` is `None` exactly when no digit begins from `at` on, and otherwise the digit
      that begins first. */
  lemma {:induction false} LeftFromSpec(words: WordTable, line: seq<byte>, at: nat)
    requires at <= |line|
    ensures LeftFrom(words, line, at).None? <==>
      forall i :: at <= i < |line| ==> DigitStarting(words, line, i).None?
    ensures LeftFrom(words, line, at).Some? ==>
      exists i :: at <= i < |line| && DigitStarting(words, line, i) == LeftFrom(words, line, at)
                  && forall j :: at <= j < i ==> DigitStarting(words, line, j).None?
    decreases |line| - at
  {
    if at == |line| {
    } else if DigitStarting(words, line, at).Some? {
      assert DigitStarting(words, line, at) == LeftFrom(words, line, at);
    } else {
      LeftFromSpec(words, line, at + 1);
      if LeftFrom(words, line, at).Some? {
        var i :| at + 1 <= i < |line| && DigitStarting(words, line, i) == LeftFrom(words, line, at + 1)
                 && forall j :: at + 1 <= j < i ==> DigitStarting(words, line, j).None?;
        assert forall j :: at <= j < i ==> DigitStarting(words, line, j).None?;
      }
    }
  }

  /** The digit ending at the largest end position up to `end`. */
  function RightTo(words: WordTable, line: seq<byte>, end: nat): (r: Option<nat>)
    requires end <= |line|
    ensures NonEmptyWords(words) && r.Some? ==> r.value <= 9
  {
    if end == 0 then None
    else if DigitEnding(words, line, end).Some? then DigitEnding(words, line, end)
    else RightTo(words, line, end - 1)
  }

  /** `RightTo` is `None` exactly when no digit ends at or before `end`, and otherwise the
      digit that ends last. */
  lemma {:induction false} RightToSpec(words: WordTable, line: seq<byte>, end: nat)
    requires end <= |line|
    ensures RightTo(words, line, end).None? <==>
      forall e :: 0 < e <= end ==> DigitEnding(words, line, e).None?
    ensures RightTo(words, line, end).Some? ==>
      exists e :: 0 < e <= end && DigitEnding(words, line, e) == RightTo(words, line, end)
                  && forall j :: e < j <= end ==> DigitEnding(words, line, j).None?
  {
    if end == 0 {
    } else if DigitEnding(words, line, end).Some? {
      assert DigitEnding(words, line, end) == RightTo(words, line, end);
    } else {
      RightToSpec(words, line, end - 1);
      if RightTo(words, line, end).Some? {
        var e :| 0 < e <= end - 1 && DigitEnding(words, line, e) == RightTo(words, line, end - 1)
                 && forall j :: e < j <= end - 1 ==> DigitEnding(words, line, j).None?;
        assert forall j :: e < j <= end ==> DigitEnding(words, line, j).None?;
      }
    }
  }

  /** The first loop of `part2`: step `at` forward until a digit or a digit word begins
      there; running off the end of the line is the failed assertion. */
  method LeftDigit(words: WordTable, line: seq<byte>) returns (r: Option<nat>)
    ensures r == LeftFrom(words, line, 0)
  {
    var at := 0;
    while true
      invariant at <= |line|
      invariant LeftFrom(words, line, 0) == LeftFrom(words, line, at)
      decreases |line| - at
    {
      if at == |line| {
        return None;
      }
      var actual := DigitValue(line[at]);
      if actual.Some? {
        return actual;
      }
      var text := WordStarting(line[at..], words);
      if text.Some? {
        return text;
      }
      at := at + 1;
    }
  }

  /** The second loop: cut `at` bytes off the end until the rest ends with a digit or a
      digit word. */
  method RightDigit(words: WordTable, line: seq<byte>) returns (r: Option<nat>)
    ensures r == RightTo(words, line, |line|)
  {
    var at := 0;
    while true
      invariant at <= |line|
      invariant RightTo(words, line, |line|) == RightTo(words, line, |line| - at)
      decreases |line| - at
    {
      if at == |line| {
        return None;
      }
      var end := |line| - at;
      var actual := DigitValue(line[end - 1]);
      if actual.Some? {
        return actual;
      }
      var text := WordEnding(line[..end], words);
      if text.Some? {
        return text;
      }
      at := at + 1;
    }
  }

  /** A line's part-two value; `None` when the line holds no digit and no digit word. */
  function Value2(words: WordTable, line: seq<byte>): (r: Option<nat>)
    requires NonEmptyWords(words)
    ensures r.Some? ==> r.value <= 99
  {
    match (LeftFrom(words, line, 0), RightTo(words, line, |line|))
    case (Some(l), Some(r)) => Some(l * 10 + r)
    case _ => None
  }

  /** A line has a left digit exactly when it has a right one. */
  lemma LeftIffRight(words: WordTable, line: seq<byte>)
    requires NonEmptyWords(words)
    ensures LeftFrom(words, line, 0).Some? <==> RightTo(words, line, |line|).Some?
  {
    LeftFromSpec(words, line, 0);
    RightToSpec(words, line, |line|);
    if LeftFrom(words, line, 0).Some? {
      var i :| 0 <= i < |line| && DigitStarting(words, line, i) == LeftFrom(words, line, 0);
      StartImpliesEnd(words, line, i);
    }
    if RightTo(words, line, |line|).Some? {
      var e :| 0 < e <= |line| && DigitEnding(words, line, e) == RightTo(words, line, |line|);
      EndImpliesStart(words, line, e);
    }
  }

  lemma StartImpliesEnd(words: WordTable, line: seq<byte>, i: nat)
    requires NonEmptyWords(words) && i < |line| && DigitStarting(words, line, i).Some?
    ensures exists e :: 0 < e <= |line| && DigitEnding(words, line, e).Some?
  {
    if DigitValue(line[i]).Some? {
      assert DigitEnding(words, line, i + 1).Some?;
    } else {
      var k :| 0 <= k < |words| && StartsWith(line[i..], words[k].0);
      var w := words[k].0;
      var e := i + |w|;
      SameWindow(line, i, e);
      if DigitValue(line[e - 1]).None? {
        assert EndsWith(line[..e], w);
      }
      assert DigitEnding(words, line, e).Some?;
    }
  }

  /** The bytes from `i` up to `e`, seen from `i` on or up to `e`. */
  lemma SameWindow(line: seq<byte>, i: nat, e: nat)
    requires i <= e <= |line|
    ensures line[..e][e - (e - i)..] == line[i..][..e - i]
  {
    assert |line[..e]| == e;
    forall j | 0 <= j < e - i ensures line[..e][i..][j] == line[i..][..e - i][j] {
      assert line[..e][i..][j] == line[i + j];
    }
  }

  lemma EndImpliesStart(words: WordTable, line: seq<byte>, e: nat)
    requires NonEmptyWords(words) && 0 < e <= |line| && DigitEnding(words, line, e).Some?
    ensures exists i :: 0 <= i < |line| && DigitStarting(words, line, i).Some?
  {
    if DigitValue(line[e - 1]).Some? {
      assert DigitStarting(words, line, e - 1).Some?;
    } else {
      var k :| 0 <= k < |words| && EndsWith(line[..e], words[k].0);
      var w := words[k].0;
      var i := e - |w|;
      SameWindow(line, i, e);
      if DigitValue(line[i]).None? {
        assert StartsWith(line[i..], w);
      }
      assert DigitStarting(words, line, i).Some?;
    }
  }

  /** Without any digit word in the line, part two reads the same digits as part one. */
  lemma NoWordsSameAsPart1(words: WordTable, line: seq<byte>)
    requires NonEmptyWords(words)
    requires forall i :: 0 <= i < |line| ==> WordStarting(line[i..], words).None?
    requires forall e :: 0 < e <= |line| ==> WordEnding(line[..e], words).None?
    requires exists i :: 0 <= i < |line| && IsDigitByte(line[i])
    ensures Value2(words, line) == Some(Value1(line))
  {
    var d :| 0 <= d < |line| && IsDigitByte(line[d]);
    var l, r := FirstDigit(line), LastDigit(line);
    assert l.Some? && LeftFrom(words, line, 0) == l by {
      LeftWithoutWords(words, line, d);
    }
    assert r.Some? && RightTo(words, line, |line|) == r by {
      RightWithoutWords(words, line, d);
    }
  }

  lemma LeftWithoutWords(words: WordTable, line: seq<byte>, d: nat)
    requires forall i :: 0 <= i < |line| ==> WordStarting(line[i..], words).None?
    requires d < |line| && IsDigitByte(line[d])
    ensures LeftFrom(words, line, 0) == FirstDigit(line) != None
  {
    LeftFromSpec(words, line, 0);
    assert DigitStarting(words, line, d).Some?;
    assert LeftFrom(words, line, 0).Some?;
    var i :| 0 <= i < |line| && DigitStarting(words, line, i) == LeftFrom(words, line, 0)
             && forall j :: 0 <= j < i ==> DigitStarting(words, line, j).None?;
    assert WordStarting(line[i..], words).None?;
    assert DigitValue(line[i]).Some?;
    forall j | 0 <= j < i ensures !IsDigitByte(line[j]) {
      assert DigitStarting(words, line, j).None?;
    }
    FirstDigitAt(line, i);
  }

  lemma RightWithoutWords(words: WordTable, line: seq<byte>, d: nat)
    requires forall e :: 0 < e <= |line| ==> WordEnding(line[..e], words).None?
    requires d < |line| && IsDigitByte(line[d])
    ensures RightTo(words, line, |line|) == LastDigit(line) != None
  {
    RightToSpec(words, line, |line|);
    assert DigitEnding(words, line, d + 1).Some?;
    assert RightTo(words, line, |line|).Some?;
    var e :| 0 < e <= |line| && DigitEnding(words, line, e) == RightTo(words, line, |line|)
             && forall j :: e < j <= |line| ==> DigitEnding(words, line, j).None?;
    assert WordEnding(line[..e], words).None?;
    assert DigitValue(line[e - 1]).Some?;
    forall j | e - 1 < j < |line| ensures !IsDigitByte(line[j]) {
      assert DigitEnding(words, line, j + 1).None?;
    }
    LastDigitAt(line, e - 1);
  }

  lemma FirstDigitAt(line: seq<byte>, i: nat)
    requires i < |line| && IsDigitByte(line[i])
    requires forall j :: 0 <= j < i ==> !IsDigitByte(line[j])
    ensures FirstDigit(line) == DigitValue(line[i])
  {
    FirstDigitSpec(line);
    assert FirstDigit(line).Some?;
    var k :| 0 <= k < |line| && DigitValue(line[k]) == FirstDigit(line)
             && forall j :: 0 <= j < k ==> !IsDigitByte(line[j]);
    assert IsDigitByte(line[k]);
  }

  lemma LastDigitAt(line: seq<byte>, i: nat)
    requires i < |line| && IsDigitByte(line[i])
    requires forall j :: i < j < |line| ==> !IsDigitByte(line[j])
    ensures LastDigit(line) == DigitValue(line[i])
  {
    LastDigitSpec(line);
    assert LastDigit(line).Some?;
    var k :| 0 <= k < |line| && DigitValue(line[k]) == LastDigit(line)
             && forall j :: k < j < |line| ==> !IsDigitByte(line[j]);
    assert IsDigitByte(line[k]);
  }

  /** The part-two values summed; `None` as soon as one line has no digit at all. */
  function SumValues2(words: WordTable, lines: seq<seq<byte>>): (r: Option<nat>)
    requires NonEmptyWords(words)
    ensures r.Some? <==> forall k :: 0 <= k < |lines| ==> Value2(words, lines[k]).Some?
  {
    if lines == [] then Some(0)
    else
      match (Value2(words, lines[0]), SumValues2(words, lines[1..]))
      case (Some(v), Some(rest)) => Some(v + rest)
      case _ =>
        assert forall k :: 1 <= k < |lines| ==> lines[k] == lines[1..][k - 1];
        None
  }

  /** `part2`: the lines' values summed, each found by the two loops. */
  method Part2(parsed: seq<byte>) returns (r: Option<nat>)
    ensures r == SumValues2(DigitWords(), Split(parsed, NEWLINE))
  {
    var words := DigitWords();
    var lines := Split(parsed, NEWLINE);
    var sum := 0;
    var k := |lines|;
    while k > 0
      invariant 0 <= k <= |lines|
      invariant SumValues2(words, lines[k..]).Some?
      invariant sum == SumValues2(words, lines[k..]).value
    {
      k := k - 1;
      assert lines[k..][1..] == lines[k + 1..];
      var left := LeftDigit(words, lines[k]);
      var right := RightDigit(words, lines[k]);
      if left.None? || right.None? {
        return None;
      }
      sum := sum + left.value * 10 + right.value;
    }
    assert lines[0..] == lines;
    return Some(sum);
  }
}
