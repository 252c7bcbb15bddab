/** Advent of Code 2024, day 7 ("Bridge Repair"): each equation is a test value and a list of
    numbers; it is valid when some choice of operators, placed between the numbers and
    evaluated strictly left to right, yields the test value. */
module BridgeRepair {
  import opened Wrappers
  import opened Text
  import opened Decimal

  const U64_MAX: nat := 0xFFFF_FFFF_FFFF_FFFF

  datatype Operation = Add | Multiply | Concatenate

  /** `PartialEquation`: the test value and the numbers, operators not yet chosen. */
  datatype Equation = Equation(result: nat, numbers: seq<nat>)

  /** One step of the fold: `acc + num`, `acc * num`, or the digits of `acc` followed by those
      of `num`. */
  function Apply(op: Operation, acc: nat, num: nat): (r: nat)
    ensures op == Add ==> r == acc + num
    ensures op == Multiply ==> r == acc * num
    ensures op == Concatenate ==> r == acc * Pow10(NumDigits(num)) + num
  {
    match op
    case Add => acc + num
    case Multiply => acc * num
    case Concatenate => acc * Pow10(NumDigits(num)) + num
  }

  /** Concatenation is what `format!("{acc}{num}").parse()` computes, whenever the result fits
      in a `u64`. */
  lemma ConcatenateParses(acc: nat, num: nat)
    requires Apply(Concatenate, acc, num) <= U64_MAX
    ensures ParseUnsigned(ToString(acc) + ToString(num), U64_MAX) == Some(Apply(Concatenate, acc, num))
  {
    ParseConcatenation(acc, num, U64_MAX, Pow10(NumDigits(num)));
  }

  /** The operators zipped with the numbers after the first, folded from `acc`; the zip stops
      at the shorter of the two. */
  function Evaluate(acc: nat, ops: seq<Operation>, nums: seq<nat>): nat
    decreases |ops|
  {
    if ops == [] || nums == [] then acc
    else Evaluate(Apply(ops[0], acc, nums[0]), ops[1..], nums[1..])
  }

  /** The fold runs strictly left to right: one more operator and number apply to the value
      of everything before them, with no precedence of `*` over `+`. */
  lemma {:induction false} EvaluateLeftToRight(acc: nat, ops: seq<Operation>, nums: seq<nat>,
                                               op: Operation, num: nat)
    requires |ops| == |nums|
    ensures Evaluate(acc, ops + [op], nums + [num]) == Apply(op, Evaluate(acc, ops, nums), num)
    decreases |ops|
  {
    if ops != [] {
      assert (ops + [op])[1..] == ops[1..] + [op];
      assert (nums + [num])[1..] == nums[1..] + [num];
      EvaluateLeftToRight(Apply(ops[0], acc, nums[0]), ops[1..], nums[1..], op, num);
    }
  }

  /** `head` placed before each tail, in order. */
  function Prepend(head: Operation, tails: seq<seq<Operation>>): seq<seq<Operation>>
  {
    seq(|tails|, k requires 0 <= k < |tails| => [head] + tails[k])
  }

  lemma PrependMembers(head: Operation, tails: seq<seq<Operation>>, c: seq<Operation>)
    ensures c in Prepend(head, tails) <==> |c| > 0 && c[0] == head && c[1..] in tails
  {
    var r := Prepend(head, tails);
    if c in r {
      var k :| 0 <= k < |r| && r[k] == c;
      assert c[1..] == tails[k];
    }
    if |c| > 0 && c[0] == head && c[1..] in tails {
      var k :| 0 <= k < |tails| && tails[k] == c[1..];
      assert r[k] == c;
    }
  }

  /** Every head placed before every tail, heads in order and, for each head, tails in
      order. */
  function Extend(heads: seq<Operation>, tails: seq<seq<Operation>>): (r: seq<seq<Operation>>)
    ensures |r| == |heads| * |tails|
  {
    if heads == [] then [] else Prepend(heads[0], tails) + Extend(heads[1..], tails)
  }

  lemma {:induction false} ExtendMembers(heads: seq<Operation>, tails: seq<seq<Operation>>, c: seq<Operation>)
    ensures c in Extend(heads, tails) <==> |c| > 0 && c[0] in heads && c[1..] in tails
    decreases |heads|
  {
    if heads != [] {
      PrependMembers(heads[0], tails, c);
      ExtendMembers(heads[1..], tails, c);
      assert c in Extend(heads, tails) <==> c in Prepend(heads[0], tails) || c in Extend(heads[1..], tails);
      assert |c| > 0 ==> (c[0] in heads <==> c[0] == heads[0] || c[0] in heads[1..]);
    }
  }

  /** `repeat_n(operators, n).multi_cartesian_product()`: every sequence of `n` operators drawn
      from `operators`, the last position varying fastest. No positions give one empty
      sequence. */
  function Products(operators: seq<Operation>, n: nat): seq<seq<Operation>>
  {
    if n == 0 then [[]] else Extend(operators, Products(operators, n - 1))
  }

  /** Every product has `n` positions, each holding one of `operators`. */
  lemma {:induction false} ProductsSound(operators: seq<Operation>, n: nat, c: seq<Operation>)
    requires c in Products(operators, n)
    ensures |c| == n && forall i :: 0 <= i < n ==> c[i] in operators
    decreases n
  {
    if n > 0 {
      var tails := Products(operators, n - 1);
      ExtendMembers(operators, tails, c);
      ProductsSound(operators, n - 1, c[1..]);
      forall i | 0 <= i < n ensures c[i] in operators {
        if i > 0 { assert c[i] == c[1..][i - 1]; }
      }
    }
  }

  /** The other direction: every sequence of `n` operators drawn from `operators` is one of
      the products. */
  lemma {:induction false} ProductsComplete(operators: seq<Operation>, c: seq<Operation>)
    requires forall i :: 0 <= i < |c| ==> c[i] in operators
    ensures c in Products(operators, |c|)
    decreases |c|
  {
    if c == [] {
      assert Products(operators, 0) == [[]];
    } else {
      var tail := c[1..];
      forall i | 0 <= i < |tail| ensures tail[i] in operators { assert tail[i] == c[i + 1]; }
      ProductsComplete(operators, tail);
      var tails := Products(operators, |c| - 1);
      assert tail in tails && c[0] in operators;
      ExtendMembers(operators, tails, c);
      assert Products(operators, |c|) == Extend(operators, tails);
    }
  }

  /** Some choice of `n - 1` operators makes the numbers evaluate to the test value. The
      numbers must not be empty: the source subtracts one from their count and reads the
      first. */
  function HasValidEquation(eq: Equation, operators: seq<Operation>): (b: bool)
    requires |eq.numbers| >= 1
    ensures b <==> Solvable(eq, operators)
  {
    SearchDecides(eq, operators);
    AnyMatches(eq, Products(operators, |eq.numbers| - 1))
  }

  /** `any` over the candidate operator sequences. */
  function AnyMatches(eq: Equation, candidates: seq<seq<Operation>>): (b: bool)
    requires |eq.numbers| >= 1
    ensures b <==> exists k :: 0 <= k < |candidates|
                             && Evaluate(eq.numbers[0], candidates[k], eq.numbers[1..]) == eq.result
  {
    if candidates == [] then false
    else if Evaluate(eq.numbers[0], candidates[0], eq.numbers[1..]) == eq.result then true
    else
      var b := AnyMatches(eq, candidates[1..]);
      assert b ==> exists k :: 0 <= k < |candidates|
                           && Evaluate(eq.numbers[0], candidates[k], eq.numbers[1..]) == eq.result by {
        if b {
          var k :| 0 <= k < |candidates| - 1
                   && Evaluate(eq.numbers[0], candidates[1..][k], eq.numbers[1..]) == eq.result;
          assert candidates[k + 1] == candidates[1..][k];
        }
      }
      assert (exists k :: 0 <= k < |candidates|
                       && Evaluate(eq.numbers[0], candidates[k], eq.numbers[1..]) == eq.result) ==> b by {
        if exists k :: 0 <= k < |candidates|
                       && Evaluate(eq.numbers[0], candidates[k], eq.numbers[1..]) == eq.result {
          var k :| 0 <= k < |candidates|
                   && Evaluate(eq.numbers[0], candidates[k], eq.numbers[1..]) == eq.result;
          assert k != 0 && candidates[1..][k - 1] == candidates[k];
        }
      }
      b
  }

  /** Operators drawn from `operators`, one between each pair of neighbouring numbers. */
  ghost predicate Fits(ops: seq<Operation>, eq: Equation, operators: seq<Operation>)
  {
    |ops| + 1 == |eq.numbers| && forall i :: 0 <= i < |ops| ==> ops[i] in operators
  }

  /** The puzzle's own definition: some placement of the operators gives the test value. */
  ghost predicate Solvable(eq: Equation, operators: seq<Operation>)
    requires |eq.numbers| >= 1
  {
    exists ops :: Fits(ops, eq, operators) && Evaluate(eq.numbers[0], ops, eq.numbers[1..]) == eq.result
  }

  /** The search over all products decides exactly the puzzle's definition. */
  lemma SearchDecides(eq: Equation, operators: seq<Operation>)
    requires |eq.numbers| >= 1
    ensures AnyMatches(eq, Products(operators, |eq.numbers| - 1)) <==> Solvable(eq, operators)
  {
    if AnyMatches(eq, Products(operators, |eq.numbers| - 1)) {
      FoundIsSolvable(eq, operators);
    }
    if Solvable(eq, operators) {
      SolvableIsFound(eq, operators);
    }
  }

  lemma FoundIsSolvable(eq: Equation, operators: seq<Operation>)
    requires |eq.numbers| >= 1 && AnyMatches(eq, Products(operators, |eq.numbers| - 1))
    ensures Solvable(eq, operators)
  {
    var candidates := Products(operators, |eq.numbers| - 1);
    var k :| 0 <= k < |candidates|
             && Evaluate(eq.numbers[0], candidates[k], eq.numbers[1..]) == eq.result;
    ProductsSound(operators, |eq.numbers| - 1, candidates[k]);
    assert Fits(candidates[k], eq, operators);
  }

  lemma SolvableIsFound(eq: Equation, operators: seq<Operation>)
    requires |eq.numbers| >= 1 && Solvable(eq, operators)
    ensures AnyMatches(eq, Products(operators, |eq.numbers| - 1))
  {
    var candidates := Products(operators, |eq.numbers| - 1);
    var ops :| Fits(ops, eq, operators) && Evaluate(eq.numbers[0], ops, eq.numbers[1..]) == eq.result;
    ProductsComplete(operators, ops);
    var k :| 0 <= k < |candidates| && candidates[k] == ops;
  }

  /** More operators never make an equation invalid. */
  lemma MoreOperators(eq: Equation, fewer: seq<Operation>, more: seq<Operation>)
    requires |eq.numbers| >= 1
    requires forall op :: op in fewer ==> op in more
    ensures HasValidEquation(eq, fewer) ==> HasValidEquation(eq, more)
  {
    if Solvable(eq, fewer) {
      var ops :| Fits(ops, eq, fewer) && Evaluate(eq.numbers[0], ops, eq.numbers[1..]) == eq.result;
      assert Fits(ops, eq, more);
    }
  }

  predicate AllNonEmpty(eqs: seq<Equation>)
  {
    forall k :: 0 <= k < |eqs| ==> |eqs[k].numbers| >= 1
  }

  /** The total calibration result: the sum of the test values of the valid equations. */
  function Calibration(eqs: seq<Equation>, operators: seq<Operation>): nat
    requires AllNonEmpty(eqs)
  {
    if eqs == [] then 0
    else
      (if HasValidEquation(eqs[0], operators) then eqs[0].result else 0)
      + Calibration(eqs[1..], operators)
  }

  /** The same sum by the puzzle's definition of a valid equation. */
  ghost function SolvableTotal(eqs: seq<Equation>, operators: seq<Operation>): nat
    requires AllNonEmpty(eqs)
  {
    if eqs == [] then 0
    else
      (if Solvable(eqs[0], operators) then eqs[0].result else 0)
      + SolvableTotal(eqs[1..], operators)
  }

  lemma {:induction false} CalibrationSolvable(eqs: seq<Equation>, operators: seq<Operation>)
    requires AllNonEmpty(eqs)
    ensures Calibration(eqs, operators) == SolvableTotal(eqs, operators)
    decreases |eqs|
  {
    if eqs != [] {
      CalibrationSolvable(eqs[1..], operators);
    }
  }

  /** Adding operators can only add equations to the sum. */
  lemma {:induction false} CalibrationMonotone(eqs: seq<Equation>, fewer: seq<Operation>, more: seq<Operation>)
    requires AllNonEmpty(eqs)
    requires forall op :: op in fewer ==> op in more
    ensures Calibration(eqs, fewer) <= Calibration(eqs, more)
    decreases |eqs|
  {
    if eqs != [] {
      MoreOperators(eqs[0], fewer, more);
      CalibrationMonotone(eqs[1..], fewer, more);
    }
  }

  /** `part1`: with addition and multiplication. */
  function Part1(eqs: seq<Equation>): (r: nat)
    requires AllNonEmpty(eqs)
    ensures r == SolvableTotal(eqs, [Add, Multiply])
  {
    CalibrationSolvable(eqs, [Add, Multiply]);
    Calibration(eqs, [Add, Multiply])
  }

  /** `part2`: with concatenation as well. */
  function Part2(eqs: seq<Equation>): (r: nat)
    requires AllNonEmpty(eqs)
    ensures r == SolvableTotal(eqs, [Add, Multiply, Concatenate])
  {
    CalibrationSolvable(eqs, [Add, Multiply, Concatenate]);
    Calibration(eqs, [Add, Multiply, Concatenate])
  }

  lemma Part1AtMostPart2(eqs: seq<Equation>)
    requires AllNonEmpty(eqs)
    ensures Part1(eqs) <= Part2(eqs)
  {
    CalibrationMonotone(eqs, [Add, Multiply], [Add, Multiply, Concatenate]);
  }

  /** The sum never exceeds the sum of all test values. */
  lemma {:induction false} CalibrationBound(eqs: seq<Equation>, operators: seq<Operation>)
    requires AllNonEmpty(eqs)
    ensures Calibration(eqs, operators) <= ResultsTotal(eqs)
    decreases |eqs|
  {
    if eqs != [] {
      CalibrationBound(eqs[1..], operators);
    }
  }

  function ResultsTotal(eqs: seq<Equation>): nat
  {
    if eqs == [] then 0 else eqs[0].result + ResultsTotal(eqs[1..])
  }

  datatype ParseError = NoColon | NotANumber

  /** One line "result: n1 n2 ...": the numbers are read before the test value. */
  function ParseEquation(line: string): (r: Result<Equation, ParseError>)
    ensures SplitOnce(line, ": ").None? <==> r == Err(NoColon)
  {
    match SplitOnce(line, ": ")
    case None => Err(NoColon)
    case Some((result, numbers)) =>
      match ParseAll(SplitWhitespace(numbers), U64_MAX)
      case None => Err(NotANumber)
      case Some(ns) =>
        match ParseUnsigned(result, U64_MAX)
        case None => Err(NotANumber)
        case Some(v) => Ok(Equation(v, ns))
  }

  /** An equation written as "result: n1 n2 ..." reads back as that equation. */
  lemma ParseEquationRoundTrip(eq: Equation)
    requires eq.result <= U64_MAX
    requires forall k :: 0 <= k < |eq.numbers| ==> eq.numbers[k] <= U64_MAX
    ensures ParseEquation(ToString(eq.result) + ": " + Join(ToStrings(eq.numbers), ' ')) == Ok(eq)
  {
    var head := ToString(eq.result);
    assert ':' !in head by {
      forall i | 0 <= i < |head| ensures head[i] != ':' { assert IsDigitChar(head[i]); }
    }
    SplitOnceAt(head, ": ", Join(ToStrings(eq.numbers), ' '));
    ParseAllRoundTrip(eq.numbers, U64_MAX);
    ParseToString(eq.result, U64_MAX);
  }

  /** `parse`: one equation per line; the first bad line is the error. */
  function Parse(input: string): (r: Result<seq<Equation>, ParseError>)
    ensures r.Ok? ==> |r.value| == |Lines(input)|
  {
    ParseEquations(Lines(input))
  }

  /** One equation per line, in order; the first line that does not parse is the error. */
  function ParseEquations(lines: seq<string>): (r: Result<seq<Equation>, ParseError>)
    ensures r.Ok? <==> forall k :: 0 <= k < |lines| ==> ParseEquation(lines[k]).Ok?
    ensures r.Ok? ==> (|r.value| == |lines|
                       && forall k :: 0 <= k < |lines| ==> ParseEquation(lines[k]) == Ok(r.value[k]))
  {
    Collect(lines, ParseEquation)
  }
}
