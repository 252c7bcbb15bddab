/** 2025 day 3: each line is a bank of batteries, one decimal digit each. The joltage of a
    bank for `n` batteries is the number formed by `n` of its digits taken in order; the code
    picks them greedily, each time the leftmost largest digit that still leaves room for the
    rest. Part 1 sums the joltages for two batteries, part 2 for twelve. */
module BatteryBanks {
  import opened Wrappers
  import opened Bytes
  import opened Text
  import opened Decimal

  /** Every byte of the bank is an ASCII digit. */
  predicate AllDigits(line: seq<byte>)
  {
    forall i :: 0 <= i < |line| ==> IsDigitByte(line[i])
  }

  /** `(lo..hi).fold((0, 0), ..)` over the bytes of the bank: the index and value of the
      first greatest byte, replaced only by a strictly greater one; `(0, 0)` when nothing in
      the range exceeds 0. */
  function ArgMax(line: seq<byte>, lo: nat, hi: nat): (r: (nat, byte))
    requires lo <= hi <= |line|
    ensures lo < hi ==> line[lo] <= r.1
    ensures r.1 > 0 ==> lo <= r.0 < hi && line[r.0] == r.1
    decreases hi
  {
    if hi == lo then (0, 0)
    else
      var prior := ArgMax(line, lo, hi - 1);
      if line[hi - 1] > prior.1 then (hi - 1, line[hi - 1]) else prior
  }

  /** The fold finds the greatest byte of the range, and the first place it occurs. */
  lemma {:induction false} ArgMaxIsFirstGreatest(line: seq<byte>, lo: nat, hi: nat)
    requires lo <= hi <= |line|
    ensures var r := ArgMax(line, lo, hi);
      && (forall i :: lo <= i < hi ==> line[i] <= r.1)
      && (r.1 > 0 ==> forall i :: lo <= i < r.0 ==> line[i] < r.1)
      && (r.1 == 0 ==> r.0 == 0)
    decreases hi
  {
    if lo < hi {
      ArgMaxIsFirstGreatest(line, lo, hi - 1);
    }
  }

  /** Indices strictly increasing, all within `from..len`. */
  predicate Increasing(ix: seq<nat>, from: nat, len: nat)
    decreases |ix|
  {
    |ix| == 0 || (from <= ix[0] < len && Increasing(ix[1..], ix[0] + 1, len))
  }

  /** Increasing indices in `from..len` need `|ix|` places there. */
  lemma {:induction false} IncreasingRoom(ix: seq<nat>, from: nat, len: nat)
    requires Increasing(ix, from, len)
    ensures |ix| > 0 ==> from <= ix[0] && ix[0] + |ix| <= len
    ensures forall j :: 0 <= j < |ix| ==> ix[j] < len
    decreases |ix|
  {
    if |ix| > 0 {
      var rest := ix[1..];
      IncreasingRoom(rest, ix[0] + 1, len);
      forall j | 1 <= j < |ix| ensures ix[j] < len {
        assert ix[j] == rest[j - 1];
      }
    }
  }

  /** The indices the greedy choice takes for `n` more batteries from `start` on: at each step
      the first greatest digit among those that leave `n - 1` digits after it. */
  function Pick(line: seq<byte>, n: nat, start: nat): (ix: seq<nat>)
    requires AllDigits(line) && start + n <= |line|
    ensures |ix| == n
    ensures forall j :: 0 <= j < n ==> ix[j] < |line|
    decreases n
  {
    if n == 0 then []
    else
      var k := ArgMax(line, start, |line| - (n - 1)).0;
      assert IsDigitByte(line[start]);
      var ix := [k] + Pick(line, n - 1, k + 1);
      assert forall j :: 1 <= j < n ==> ix[j] == Pick(line, n - 1, k + 1)[j - 1];
      ix
  }

  /** Over a non-empty range of digits the fold finds a digit inside the range. */
  lemma ArgMaxInRange(line: seq<byte>, lo: nat, hi: nat)
    requires AllDigits(line) && lo < hi <= |line|
    ensures var r := ArgMax(line, lo, hi);
      lo <= r.0 < hi && IsDigitByte(r.1) && line[r.0] == r.1
  {
    assert IsDigitByte(line[lo]);
    var r := ArgMax(line, lo, hi);
    assert IsDigitByte(line[r.0]);
  }

  /** One greedy step: the first index is the argmax over the places that leave room. */
  lemma PickStep(line: seq<byte>, n: nat, start: nat)
    requires AllDigits(line) && start + n <= |line| && n > 0
    ensures var r := ArgMax(line, start, |line| - (n - 1));
      && start <= r.0 < |line| - (n - 1) && IsDigitByte(r.1) && line[r.0] == r.1
      && Pick(line, n, start) == [r.0] + Pick(line, n - 1, r.0 + 1)
  {
    assert IsDigitByte(line[start]);
    var r := ArgMax(line, start, |line| - (n - 1));
    assert IsDigitByte(line[r.0]);
  }

  /** The greedy indices increase strictly. */
  lemma {:induction false} PickIncreasing(line: seq<byte>, n: nat, start: nat)
    requires AllDigits(line) && start + n <= |line|
    ensures Increasing(Pick(line, n, start), start, |line|)
    decreases n
  {
    if n > 0 {
      var k := ArgMax(line, start, |line| - (n - 1)).0;
      PickStep(line, n, start);
      var rest := Pick(line, n - 1, k + 1);
      PickIncreasing(line, n - 1, k + 1);
      assert ([k] + rest)[1..] == rest;
    }
  }

  /** The digits at the given indices, in order. */
  function Chosen(line: seq<byte>, ix: seq<nat>): (ds: seq<nat>)
    requires AllDigits(line) && forall j :: 0 <= j < |ix| ==> ix[j] < |line|
    ensures |ds| == |ix| && IsDigitSeq(ds)
  {
    seq(|ix|, j requires 0 <= j < |ix| && ix[j] < |line| && IsDigitByte(line[ix[j]]) =>
      (line[ix[j]] - ZERO) as nat)
  }

  /** The joltage of a bank for `n` batteries, as the greedy choice forms it. */
  function Joltage(line: seq<byte>, n: nat): (j: nat)
    requires AllDigits(line) && n <= |line|
    ensures j < Pow10(n)
  {
    var ds := Chosen(line, Pick(line, n, 0));
    ValueBound(ds);
    Value(ds)
  }

  /** `get_joltage::<N>`: for each remaining count `digit` from `n - 1` down to 0, the argmax
      fold over `next_start..len - digit`, then `next_start` moves past the digit taken and
      the digit is appended to the number. The bank must hold at least `n` digits and nothing
      else, or the slicing bound or the `- b'0'` underflows. */
  method GetJoltage(line: seq<byte>, n: nat) returns (joltage: nat)
    requires AllDigits(line) && n <= |line|
    ensures joltage == Joltage(line, n)
  {
    var nextStart: nat := 0;
    var remaining: nat := n;
    joltage := 0;
    ghost var taken: seq<nat> := [];
    while remaining > 0
      invariant nextStart + remaining <= |line|
      invariant joltage == Value(taken)
      invariant Complete(line, remaining, nextStart, taken) == Complete(line, n, 0, [])
    {
      var digit := remaining - 1;
      var last := |line| - digit;
      var (index, highest) := ArgMax(line, nextStart, last);
      ArgMaxInRange(line, nextStart, last);
      assert (taken + [(highest - ZERO) as nat])[..|taken|] == taken;
      taken := taken + [(highest - ZERO) as nat];
      nextStart := index + 1;
      joltage := 10 * joltage + (highest - ZERO) as nat;
      remaining := digit;
    }
    CompleteIsChosen(line, n, 0, []);
    assert [] + Chosen(line, Pick(line, n, 0)) == Chosen(line, Pick(line, n, 0));
  }

  /** The digits the loop of `GetJoltage` has taken once it has finished, from a state where
      `remaining` digits are still to be taken from `start` on and `taken` are taken. */
  function Complete(line: seq<byte>, remaining: nat, start: nat, taken: seq<nat>): seq<nat>
    requires AllDigits(line) && start + remaining <= |line|
    decreases remaining
  {
    if remaining == 0 then taken
    else
      var (index, highest) := ArgMax(line, start, |line| - (remaining - 1));
      ArgMaxInRange(line, start, |line| - (remaining - 1));
      Complete(line, remaining - 1, index + 1, taken + [(highest - ZERO) as nat])
  }

  /** What the loop still takes are the digits at the greedy indices. */
  lemma {:induction false} CompleteIsChosen(line: seq<byte>, remaining: nat, start: nat, taken: seq<nat>)
    requires AllDigits(line) && start + remaining <= |line|
    ensures Complete(line, remaining, start, taken) == taken + Chosen(line, Pick(line, remaining, start))
    decreases remaining
  {
    if remaining == 0 {
      assert Chosen(line, Pick(line, 0, start)) == [];
      assert taken + [] == taken;
    } else {
      var r := ArgMax(line, start, |line| - (remaining - 1));
      var d := (r.1 - ZERO) as nat;
      ChosenStep(line, remaining, start);
      CompleteStep(line, remaining, start, taken);
      CompleteIsChosen(line, remaining - 1, r.0 + 1, taken + [d]);
      Regroup(Complete(line, remaining, start, taken), taken, d,
              Chosen(line, Pick(line, remaining - 1, r.0 + 1)), Chosen(line, Pick(line, remaining, start)));
    }
  }

  /** Appending a digit and then the rest is appending the digit followed by the rest. */
  lemma Regroup(all: seq<nat>, taken: seq<nat>, d: nat, rest: seq<nat>, chosen: seq<nat>)
    requires all == (taken + [d]) + rest && chosen == [d] + rest
    ensures all == taken + chosen
  {
  }

  /** One turn of the loop of `GetJoltage` takes the first greatest digit of the window. */
  lemma CompleteStep(line: seq<byte>, remaining: nat, start: nat, taken: seq<nat>)
    requires AllDigits(line) && start + remaining <= |line| && remaining > 0
    ensures var r := ArgMax(line, start, |line| - (remaining - 1));
      && start <= r.0 < |line| - (remaining - 1) && IsDigitByte(r.1)
      && Complete(line, remaining, start, taken)
         == Complete(line, remaining - 1, r.0 + 1, taken + [(r.1 - ZERO) as nat])
  {
    ArgMaxInRange(line, start, |line| - (remaining - 1));
  }

  /** The digits at the greedy indices: the digit the first step takes, then the rest. */
  lemma ChosenStep(line: seq<byte>, n: nat, start: nat)
    requires AllDigits(line) && start + n <= |line| && n > 0
    ensures var r := ArgMax(line, start, |line| - (n - 1));
      && start <= r.0 < |line| - (n - 1) && IsDigitByte(r.1)
      && Chosen(line, Pick(line, n, start))
         == [(r.1 - ZERO) as nat] + Chosen(line, Pick(line, n - 1, r.0 + 1))
  {
    var r := ArgMax(line, start, |line| - (n - 1));
    PickStep(line, n, start);
    ChosenCons(line, r.0, Pick(line, n - 1, r.0 + 1));
  }

  /** Putting an index first puts its digit first. */
  lemma ChosenCons(line: seq<byte>, k: nat, rest: seq<nat>)
    requires AllDigits(line) && k < |line| && forall j :: 0 <= j < |rest| ==> rest[j] < |line|
    ensures forall j :: 0 <= j < |[k] + rest| ==> ([k] + rest)[j] < |line|
    ensures IsDigitByte(line[k])
    ensures Chosen(line, [k] + rest) == [(line[k] - ZERO) as nat] + Chosen(line, rest)
  {
    assert forall j :: 0 <= j < |[k] + rest| ==> ([k] + rest)[j] < |line|;
    assert IsDigitByte(line[k]);
  }

  /** A larger leading digit outweighs whatever follows it. */
  lemma LeadingDigitWins(a: nat, x: nat, b: nat, y: nat, p: nat)
    requires a < b && x < p
    ensures a * p + x < b * p + y
  {
    assert (a + 1) * p <= b * p;
  }

  /** Under equal leading digits the rest decides. */
  lemma LeadingDigitTies(a: nat, x: nat, b: nat, y: nat, p: nat)
    requires a == b && x <= y
    ensures a * p + x <= b * p + y
  {
  }

  /** A digit written in front of others counts `10^|ds|` times. */
  lemma ValueFront(d: nat, ds: seq<nat>)
    ensures Value([d] + ds) == d * Pow10(|ds|) + Value(ds)
  {
    ValueAppend([d], ds);
    assert Value([d]) == d by { assert [d][..0] == []; }
  }

  /** Chosen digits split as their indices do: the first index gives the first digit. */
  lemma ChosenSplit(line: seq<byte>, ix: seq<nat>)
    requires AllDigits(line) && |ix| > 0 && forall j :: 0 <= j < |ix| ==> ix[j] < |line|
    ensures forall j :: 0 <= j < |ix| - 1 ==> ix[1..][j] < |line|
    ensures IsDigitByte(line[ix[0]])
    ensures Chosen(line, ix)[0] == (line[ix[0]] - ZERO) as nat
    ensures Chosen(line, ix)[1..] == Chosen(line, ix[1..])
  {
    assert forall j :: 0 <= j < |ix| - 1 ==> ix[1..][j] < |line| by {
      forall j | 0 <= j < |ix| - 1 ensures ix[1..][j] < |line| {
        assert ix[1..][j] == ix[j + 1];
      }
    }
    assert ix == [ix[0]] + ix[1..];
    ChosenCons(line, ix[0], ix[1..]);
  }

  /** Where the greedy step and another increasing choice start: the other's first digit is no
      greater, and when it is equal the other's first index is at or after the greedy one. */
  lemma GreedyFirst(line: seq<byte>, n: nat, start: nat, ix: seq<nat>)
    requires AllDigits(line) && start + n <= |line| && n > 0
    requires |ix| == n && Increasing(ix, start, |line|)
    ensures var g := Pick(line, n, start);
      && g[0] < |line| && ix[0] < |line| && line[ix[0]] <= line[g[0]]
      && (line[ix[0]] == line[g[0]] ==> Increasing(ix[1..], g[0] + 1, |line|))
  {
    PickStep(line, n, start);
    ArgMaxIsFirstGreatest(line, start, |line| - (n - 1));
    IncreasingRoom(ix, start, |line|);
    var k := Pick(line, n, start)[0];
    if line[ix[0]] == line[k] {
      IncreasingFrom(ix[1..], ix[0] + 1, k + 1, |line|);
    }
  }

  /** `xs` is no greater than `ys` at the first place where they differ. */
  predicate LexNoGreater(xs: seq<nat>, ys: seq<nat>)
    requires |xs| == |ys|
  {
    |xs| == 0 || xs[0] < ys[0] || (xs[0] == ys[0] && LexNoGreater(xs[1..], ys[1..]))
  }

  /** For digit strings of one length, the lexicographic order is the numeric one. */
  lemma {:induction false} LexValue(xs: seq<nat>, ys: seq<nat>)
    requires |xs| == |ys| && IsDigitSeq(xs) && IsDigitSeq(ys) && LexNoGreater(xs, ys)
    ensures Value(xs) <= Value(ys)
    decreases |xs|
  {
    if |xs| > 0 {
      var x, y := xs[1..], ys[1..];
      assert IsDigitSeq(x) && IsDigitSeq(y) by {
        forall i | 0 <= i < |x| ensures x[i] < 10 && y[i] < 10 {
          assert x[i] == xs[i + 1] && y[i] == ys[i + 1];
        }
      }
      assert xs == [xs[0]] + x && ys == [ys[0]] + y;
      ValueFront(xs[0], x);
      ValueFront(ys[0], y);
      if xs[0] < ys[0] {
        ValueBound(x);
        LeadingDigitWins(xs[0], Value(x), ys[0], Value(y), Pow10(|x|));
      } else {
        LexValue(x, y);
        LeadingDigitTies(xs[0], Value(x), ys[0], Value(y), Pow10(|x|));
      }
    }
  }

  /** No choice of `n` digits in order after `start` is lexicographically greater than the
      greedy one. */
  lemma {:induction false} GreedyIsMaximal(line: seq<byte>, n: nat, start: nat, ix: seq<nat>)
    requires AllDigits(line) && start + n <= |line|
    requires |ix| == n && Increasing(ix, start, |line|)
    ensures forall j :: 0 <= j < |ix| ==> ix[j] < |line|
    ensures LexNoGreater(Chosen(line, ix), Chosen(line, Pick(line, n, start)))
    decreases n
  {
    IncreasingRoom(ix, start, |line|);
    if n > 0 {
      var g := Pick(line, n, start);
      GreedyFirst(line, n, start, ix);
      ChosenSplit(line, ix);
      ChosenSplit(line, g);
      if line[ix[0]] == line[g[0]] {
        PickStep(line, n, start);
        assert g[1..] == Pick(line, n - 1, g[0] + 1);
        GreedyIsMaximal(line, n - 1, g[0] + 1, ix[1..]);
      }
    }
  }

  /** Indices increasing from some point are increasing from any earlier point. */
  lemma IncreasingFrom(ix: seq<nat>, from: nat, earlier: nat, len: nat)
    requires Increasing(ix, from, len) && earlier <= from
    ensures Increasing(ix, earlier, len)
  {
  }

  /** The joltage is the largest number formed by any `n` digits of the bank taken in order,
      and the greedy indices are such a choice. */
  lemma JoltageIsMaximum(line: seq<byte>, n: nat, ix: seq<nat>)
    requires AllDigits(line) && n <= |line|
    requires |ix| == n && Increasing(ix, 0, |line|)
    ensures forall j :: 0 <= j < |ix| ==> ix[j] < |line|
    ensures Value(Chosen(line, ix)) <= Joltage(line, n)
    ensures Increasing(Pick(line, n, 0), 0, |line|)
  {
    GreedyIsMaximal(line, n, 0, ix);
    LexValue(Chosen(line, ix), Chosen(line, Pick(line, n, 0)));
    PickIncreasing(line, n, 0);
  }

  /** Among equal digits the greedy choice takes the leftmost. */
  lemma TiesGoLeft(line: seq<byte>, n: nat, start: nat)
    requires AllDigits(line) && start + n <= |line| && n > 0
    ensures var k := Pick(line, n, start)[0];
      forall i :: start <= i < |line| - (n - 1) ==> line[i] < line[k] || (line[i] == line[k] && k <= i)
  {
    PickStep(line, n, start);
    ArgMaxIsFirstGreatest(line, start, |line| - (n - 1));
  }

  /** The result of `parse`: the part 1 and part 2 sums, which `part1` and `part2` return. */
  datatype Parsed = Parsed(part1: nat, part2: nat)

  /** The `filter_map` of `parse` once the empty lines are gone: each bank's joltage for two
      and for twelve batteries. */
  function Pairs(banks: seq<seq<byte>>): (ps: seq<Parsed>)
    requires forall i :: 0 <= i < |banks| ==> AllDigits(banks[i]) && |banks[i]| >= 12
    ensures |ps| == |banks|
    ensures forall i :: 0 <= i < |banks| ==>
      ps[i] == Parsed(Joltage(banks[i], 2), Joltage(banks[i], 12))
  {
    seq(|banks|, i requires 0 <= i < |banks| =>
      Parsed(Joltage(banks[i], 2), Joltage(banks[i], 12)))
  }

  /** The sum of the part 1 fields, front to back. */
  function Total1(ps: seq<Parsed>): nat
  {
    if |ps| == 0 then 0 else ps[0].part1 + Total1(ps[1..])
  }

  /** The sum of the part 2 fields, front to back. */
  function Total2(ps: seq<Parsed>): nat
  {
    if |ps| == 0 then 0 else ps[0].part2 + Total2(ps[1..])
  }

  /** One more element at the back adds its fields to the sums. */
  lemma {:induction false} TotalSnoc(ps: seq<Parsed>, p: Parsed)
    ensures Total1(ps + [p]) == Total1(ps) + p.part1
    ensures Total2(ps + [p]) == Total2(ps) + p.part2
    decreases |ps|
  {
    if |ps| == 0 {
      assert ([] + [p])[1..] == [];
    } else {
      assert (ps + [p])[1..] == ps[1..] + [p];
      TotalSnoc(ps[1..], p);
    }
  }

  /** `reduce(|agg, next| (agg.0 + next.0, agg.1 + next.1))`: the pairwise sum, folded from the
      left; `None` for an empty sequence, where the `expect` of `parse` panics. */
  function Reduce(ps: seq<Parsed>): (r: Option<Parsed>)
    ensures r.None? <==> |ps| == 0
    ensures r.Some? ==> r.value == Parsed(Total1(ps), Total2(ps))
  {
    if |ps| == 0 then None
    else
      var init, next := ps[..|ps| - 1], ps[|ps| - 1];
      assert init + [next] == ps;
      TotalSnoc(init, next);
      match Reduce(init)
      case None => Some(next)
      case Some(agg) => Some(Parsed(agg.part1 + next.part1, agg.part2 + next.part2))
  }

  /** The lines `parse` accepts: every non-empty one is a bank of twelve or more digits and
      nothing else (a shorter line underflows `len() - digit`). */
  predicate Banks(lines: seq<seq<byte>>)
  {
    forall i :: 0 <= i < |lines| && |lines[i]| > 0 ==> AllDigits(lines[i]) && |lines[i]| >= 12
  }

  /** The non-empty lines, the banks `parse` reads. */
  function BankLines(lines: seq<seq<byte>>): (banks: seq<seq<byte>>)
    requires Banks(lines)
    ensures forall i :: 0 <= i < |banks| ==> AllDigits(banks[i]) && |banks[i]| >= 12
    ensures |banks| == 0 <==> forall i :: 0 <= i < |lines| ==> |lines[i]| == 0
  {
    NonEmptyMembers(lines);
    var banks := NonEmpty(lines);
    assert forall k :: 0 <= k < |banks| ==> exists i :: 0 <= i < |lines| && lines[i] == banks[k];
    banks
  }

  /** The `filter_map` and `reduce` of `parse` over its lines; `None` stands for the panic
      when no line is a bank. */
  function ParseLines(lines: seq<seq<byte>>): (r: Option<Parsed>)
    requires Banks(lines)
    ensures r.None? <==> forall i :: 0 <= i < |lines| ==> |lines[i]| == 0
    ensures var ps := Pairs(BankLines(lines));
      r.Some? ==> r.value == Parsed(Total1(ps), Total2(ps))
  {
    Reduce(Pairs(BankLines(lines)))
  }

  /** `parse`: the lines are the pieces between the input's newlines. */
  function Parse(input: seq<byte>): Option<Parsed>
    requires Banks(Split(input, NEWLINE))
  {
    ParseLines(Split(input, NEWLINE))
  }
}
