/** 2025 day 2: the input lists inclusive ranges of product ids; an id is invalid when its
    decimal form is some sequence of digits written twice ("6464", "123123"). Part 1 adds up
    the invalid ids of every range. */
module DoubledIds {
  import opened Wrappers
  import opened Bytes
  import opened Text
  import opened Decimal

  const U64_MAX: nat := 0xFFFF_FFFF_FFFF_FFFF

  const COMMA: byte := 44
  const DASH: byte := 45

  /** An inclusive range of ids: `start..=end`, empty when `start > end`. */
  datatype Range = Range(start: nat, end: nat)

  /** `Range::into_iter`: the ids from `start` up to and including `end`, in order. */
  function Ids(r: Range): (ids: seq<nat>)
    ensures |ids| == if r.start <= r.end then r.end - r.start + 1 else 0
    ensures forall k :: 0 <= k < |ids| ==> ids[k] == r.start + k
    decreases r.end + 1 - r.start
  {
    if r.start > r.end then [] else [r.start] + Ids(Range(r.start + 1, r.end))
  }

  /** An id belongs to the range exactly when it lies between the bounds. */
  lemma IdsBetween(r: Range, n: nat)
    ensures n in Ids(r) <==> r.start <= n <= r.end
  {
    if r.start <= n <= r.end {
      assert Ids(r)[n - r.start] == n;
    }
  }

  /** The id check of `part1`: `ilog10(n) + 1` digits; an odd count is never invalid;
      otherwise `n` is cut at `p = 10^(digits / 2)` into `high` and `low`, and the two must be
      equal. `ilog10` is not defined at 0, so neither is this check. */
  predicate Doubled(n: nat)
    requires n > 0
    ensures Doubled(n) <==> RepeatedTwice(n)
  {
    var digits := NumDigits(n);
    if digits % 2 == 1 then false
    else
      var p := Pow10(digits / 2);
      var high := n / p;
      var low := n - high * p;
      HalvesDecide(n);
      high == low
  }

  /** The reference meaning: the decimal form of `n` is its first half written twice. */
  predicate RepeatedTwice(n: nat)
  {
    var ds := Digits(n);
    |ds| % 2 == 0 && ds[..|ds| / 2] == ds[|ds| / 2..]
  }

  /** The cut at `p = 10^(digits / 2)` splits the decimal form in two halves: `high` is the
      value of the first half and `low`, below `p`, that of the second. */
  lemma CutIsHalves(n: nat)
    requires n > 0 && NumDigits(n) % 2 == 0
    ensures var ds := Digits(n);
            var half := |ds| / 2;
            var p := Pow10(half);
            n / p == Value(ds[..half]) && n - (n / p) * p == Value(ds[half..])
            && n == (n / p) * p + (n - (n / p) * p) && n - (n / p) * p < p
  {
    var ds := Digits(n);
    var half := |ds| / 2;
    var a, b := ds[..half], ds[half..];
    assert ds == a + b;
    ValueAppend(a, b);
    assert IsDigitSeq(b) by {
      forall i | 0 <= i < |b| ensures b[i] < 10 { assert b[i] == ds[half + i]; }
    }
    ValueBound(b);
    var p := Pow10(half);
    assert |b| == half;
    DivideAt(n, Value(a), Value(b), p);
  }

  /** Division by `p` undoes `q * p + r` when `r < p`. */
  lemma DivideAt(n: nat, q: nat, r: nat, p: nat)
    requires p > 0 && n == q * p + r && r < p
    ensures n / p == q && n - (n / p) * p == r
  {
    var q', r' := n / p, n % p;
    assert n == q' * p + r' && r' < p;
    if q > q' {
      MultipleAtLeast(q - q', p);
      Distribute(q, q', p);
    } else if q < q' {
      MultipleAtLeast(q' - q, p);
      Distribute(q', q, p);
    }
  }

  lemma MultipleAtLeast(k: nat, p: nat)
    requires k >= 1
    ensures k * p >= p
  {
  }

  lemma Distribute(a: nat, b: nat, p: nat)
    requires a >= b
    ensures (a - b) * p == a * p - b * p
  {
  }

  /** Two digit strings of the same length with the same value are the same string. */
  lemma {:induction false} ValueInjective(a: seq<nat>, b: seq<nat>)
    requires IsDigitSeq(a) && IsDigitSeq(b) && |a| == |b| && Value(a) == Value(b)
    ensures a == b
    decreases |a|
  {
    if |a| > 0 {
      var n := |a| - 1;
      var a', b' := a[..n], b[..n];
      assert IsDigitSeq(a') by { forall i | 0 <= i < n ensures a'[i] < 10 { assert a'[i] == a[i]; } }
      assert IsDigitSeq(b') by { forall i | 0 <= i < n ensures b'[i] < 10 { assert b'[i] == b[i]; } }
      LastDigitOf(Value(a'), a[n], Value(b'), b[n]);
      ValueInjective(a', b');
      assert a == a' + [a[n]] && b == b' + [b[n]];
    }
  }

  lemma LastDigitOf(x: nat, d: nat, y: nat, e: nat)
    requires d < 10 && e < 10 && x * 10 + d == y * 10 + e
    ensures x == y && d == e
  {
    DivideAt(x * 10 + d, x, d, 10);
    DivideAt(y * 10 + e, y, e, 10);
  }

  /** For an even digit count, the cut of `part1` gives equal halves exactly when the decimal
      form is a half written twice. */
  lemma HalvesDecide(n: nat)
    requires n > 0 && NumDigits(n) % 2 == 0
    ensures var p := Pow10(NumDigits(n) / 2);
            n / p == n - (n / p) * p <==> RepeatedTwice(n)
  {
    var ds := Digits(n);
    var half := |ds| / 2;
    CutIsHalves(n);
    var a, b := ds[..half], ds[half..];
    var p := Pow10(half);
    if n / p == n - (n / p) * p {
      assert IsDigitSeq(a) by { forall i | 0 <= i < |a| ensures a[i] < 10 { assert a[i] == ds[i]; } }
      assert IsDigitSeq(b) by { forall i | 0 <= i < |b| ensures b[i] < 10 { assert b[i] == ds[half + i]; } }
      ValueInjective(a, b);
    }
  }

  /** An id with an odd number of digits is never invalid. */
  lemma OddLengthIsValid(n: nat)
    requires n > 0 && NumDigits(n) % 2 == 1
    ensures !Doubled(n) && !RepeatedTwice(n)
  {
  }

  /** Every positive `h`, written twice, is an invalid id: `h * 10^digits(h) + h`. */
  lemma TwiceIsDoubled(h: nat)
    requires h > 0
    ensures h * Pow10(NumDigits(h)) + h > 0 && Doubled(h * Pow10(NumDigits(h)) + h)
  {
    var n := h * Pow10(NumDigits(h)) + h;
    TwiceDigits(h);
    HalvesRepeated(n, Digits(h));
  }

  lemma HalvesRepeated(n: nat, half: seq<nat>)
    requires Digits(n) == half + half
    ensures RepeatedTwice(n)
  {
    assert (half + half)[..|half|] == half && (half + half)[|half|..] == half;
  }

  /** The decimal form of `h` written twice is the decimal form of `h * 10^digits(h) + h`. */
  lemma TwiceDigits(h: nat)
    requires h > 0
    ensures Digits(h * Pow10(NumDigits(h)) + h) == Digits(h) + Digits(h)
  {
    var dh := Digits(h);
    var ds := dh + dh;
    assert Value(ds) == h * Pow10(NumDigits(h)) + h by {
      assert NumDigits(h) == |dh|;
      ValueAppend(dh, dh);
    }
    assert IsDigitSeq(ds) && ds[0] != 0 by {
      forall i | 0 <= i < |ds| ensures ds[i] < 10 {
        if i < |dh| { assert ds[i] == dh[i]; } else { assert ds[i] == dh[i - |dh|]; }
      }
    }
    DigitsOfValue(ds);
  }

  /** No range of the list contains 0 (`ilog10` would panic on it). */
  predicate AvoidsZero(ranges: seq<Range>)
  {
    forall k :: 0 <= k < |ranges| ==> ranges[k].start > 0 || ranges[k].end < ranges[k].start
  }

  /** The invalid ids among `ids`, added up. */
  function SumDoubled(ids: seq<nat>): (r: nat)
    requires forall k :: 0 <= k < |ids| ==> ids[k] > 0
    ensures r == RepeatedSum(ids)
  {
    if ids == [] then 0 else (if Doubled(ids[0]) then ids[0] else 0) + SumDoubled(ids[1..])
  }

  /** `part1`: the invalid ids of every range, range after range; an id in two ranges is
      added twice. */
  function Part1(ranges: seq<Range>): (r: nat)
    requires AvoidsZero(ranges)
    ensures r == RepeatedSum(AllIds(ranges))
  {
    if ranges == [] then 0
    else
      RepeatedSumAppend(Ids(ranges[0]), AllIds(ranges[1..]));
      SumDoubled(Ids(ranges[0])) + Part1(ranges[1..])
  }

  /** The ids of every range, range after range (`flat_map`). */
  function AllIds(ranges: seq<Range>): seq<nat>
  {
    if ranges == [] then [] else Ids(ranges[0]) + AllIds(ranges[1..])
  }

  /** The reference answer: the ids whose decimal form is a half written twice, added up. */
  function RepeatedSum(ids: seq<nat>): nat
  {
    if ids == [] then 0 else (if RepeatedTwice(ids[0]) then ids[0] else 0) + RepeatedSum(ids[1..])
  }

  lemma {:induction false} RepeatedSumAppend(a: seq<nat>, b: seq<nat>)
    ensures RepeatedSum(a + b) == RepeatedSum(a) + RepeatedSum(b)
    decreases |a|
  {
    if a != [] {
      assert (a + b)[1..] == a[1..] + b;
      RepeatedSumAppend(a[1..], b);
    } else {
      assert a + b == b;
    }
  }

  /** Ranges are added up independently: the answer for two lists is the sum of their
      answers, so overlapping or repeated ranges are counted again. */
  lemma {:induction false} Part1Append(a: seq<Range>, b: seq<Range>)
    requires AvoidsZero(a) && AvoidsZero(b)
    ensures AvoidsZero(a + b) && Part1(a + b) == Part1(a) + Part1(b)
    decreases |a|
  {
    assert AvoidsZero(a + b) by {
      forall k | 0 <= k < |a + b| ensures (a + b)[k].start > 0 || (a + b)[k].end < (a + b)[k].start {
        if k < |a| { assert (a + b)[k] == a[k]; } else { assert (a + b)[k] == b[k - |a|]; }
      }
    }
    if a != [] {
      assert (a + b)[1..] == a[1..] + b;
      Part1Append(a[1..], b);
    } else {
      assert a + b == b;
    }
  }

  /** A range of a single id adds that id exactly when its decimal form is a half written
      twice. */
  lemma SingleIdRange(n: nat)
    requires n > 0
    ensures Part1([Range(n, n)]) == if RepeatedTwice(n) then n else 0
  {
    assert Ids(Range(n, n)) == [n];
    assert SumDoubled([n]) == (if Doubled(n) then n else 0) + SumDoubled([]);
    assert Part1([Range(n, n)]) == SumDoubled([n]) + Part1([]);
  }

  /** One range "a-b": the text before the first '-' and the text after it, each read by
      `atoi` as a `u64`. A range without '-' or with a bound `atoi` rejects is an error (the
      `expect`s). */
  function ParseRange(text: seq<byte>): (r: Option<Range>)
    ensures DASH !in text ==> r.None?
  {
    match IndexOf(text, DASH)
    case None => None
    case Some(i) =>
      match (Atoi(text[..i], 0, U64_MAX), Atoi(text[i + 1..], 0, U64_MAX))
      case (Some(start), Some(end)) => Some(Range(start, end))
      case _ => None
  }

  /** A range written "start-end" reads back, whatever non-digit (such as the final newline)
      follows it. */
  lemma ParseRangeRoundTrip(r: Range, rest: seq<byte>)
    requires r.start <= U64_MAX && r.end <= U64_MAX
    requires |rest| > 0 ==> !IsDigitByte(rest[0])
    ensures ParseRange(ToBytes(r.start) + [DASH] + ToBytes(r.end) + rest) == Some(r)
  {
    var a, b := ToBytes(r.start), ToBytes(r.end);
    var text := a + [DASH] + b + rest;
    DashAfterDigits(a, b + rest);
    assert a + [DASH] + (b + rest) == text;
    AtoiToBytes(r.start, [], 0, U64_MAX);
    AtoiToBytes(r.end, rest, 0, U64_MAX);
    assert a + [] == a;
  }

  /** In digits, a dash and anything, the first dash is the one after the digits. */
  lemma DashAfterDigits(a: seq<byte>, tail: seq<byte>)
    requires forall i :: 0 <= i < |a| ==> IsDigitByte(a[i])
    ensures IndexOf(a + [DASH] + tail, DASH) == Some(|a|)
    ensures (a + [DASH] + tail)[..|a|] == a && (a + [DASH] + tail)[|a| + 1..] == tail
  {
    var text := a + [DASH] + tail;
    assert DASH !in a by {
      forall i | 0 <= i < |a| ensures a[i] != DASH { assert IsDigitByte(a[i]); }
    }
    assert text[..|a|] == a && text[|a|] == DASH;
    IndexOfFirst(text, DASH, |a|);
  }

  lemma IndexOfFirst(s: seq<byte>, x: byte, i: nat)
    requires i < |s| && s[i] == x && x !in s[..i]
    ensures IndexOf(s, x) == Some(i)
  {
    var r := IndexOf(s, x);
    assert r.Some?;
  }

  /** Every piece of the list parsed as a range; `None` as soon as one is not. */
  function ParseRanges(pieces: seq<seq<byte>>): (r: Option<seq<Range>>)
    ensures r.Some? <==> forall k :: 0 <= k < |pieces| ==> ParseRange(pieces[k]).Some?
    ensures r.Some? ==> |r.value| == |pieces|
                        && forall k :: 0 <= k < |pieces| ==> ParseRange(pieces[k]) == Some(r.value[k])
  {
    if pieces == [] then Some([])
    else
      match ParseRange(pieces[0])
      case None => None
      case Some(first) =>
        var others := pieces[1..];
        assert forall k :: 1 <= k < |pieces| ==> pieces[k] == others[k - 1];
        match ParseRanges(others)
        case None => None
        case Some(rest) => Some([first] + rest)
  }

  /** `parse`: the input split at every ',' into ranges, in order. */
  function Parse(input: seq<byte>): (r: Option<seq<Range>>)
    ensures r.Some? ==> |r.value| == multiset(input)[COMMA] + 1
  {
    ParseRanges(Split(input, COMMA))
  }
}
