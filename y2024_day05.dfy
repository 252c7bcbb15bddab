/** 2024 day 5: page-ordering rules "a|b" (page a must come before page b) and updates (lists
    of pages); the updates that already follow every rule are summed by their middle page,
    and the others are repaired by swapping the pages of a broken rule until none is broken. */
module PageOrdering {
  import opened Wrappers
  import opened Text
  import opened Decimal

  const U32_MAX: nat := 0xFFFF_FFFF

  /** `PageOrderRule(first, second)`: `first` must be printed before `second`. */
  datatype Rule = Rule(first: nat, second: nat)

  datatype Parsed = Parsed(rules: seq<Rule>, updates: seq<seq<nat>>)

  /** `is_valid_list`: when both pages of the rule occur in the list, the first occurrence of
      `first` comes before the first occurrence of `second`; otherwise the rule holds. */
  predicate IsValidList(rule: Rule, list: seq<nat>)
  {
    var f, s := IndexOf(list, rule.first), IndexOf(list, rule.second);
    f.Some? && s.Some? ==> f.value < s.value
  }

  /** `is_valid`: inserting `next` after `previous` breaks the rule exactly when `next` is the
      rule's first page and its second page was already inserted. */
  predicate IsValid(rule: Rule, previous: seq<nat>, next: nat)
  {
    forall k :: 0 <= k < |previous| ==> !(next == rule.first && previous[k] == rule.second)
  }

  lemma IsValidMeaning(rule: Rule, previous: seq<nat>, next: nat)
    ensures IsValid(rule, previous, next) <==> !(next == rule.first && rule.second in previous)
  {
  }

  /** Every rule allows `next` after `previous`. */
  predicate AllowedAfter(rules: seq<Rule>, previous: seq<nat>, next: nat)
  {
    forall r :: r in rules ==> IsValid(r, previous, next)
  }

  /** What `valid_order` checks: every page passes every rule against the pages before it. */
  predicate InOrder(update: seq<nat>, rules: seq<Rule>)
  {
    forall i :: 0 <= i < |update| ==> AllowedAfter(rules, update[..i], update[i])
  }

  /** Every rule holds of `list` in the sense of `is_valid_list`. */
  predicate AllValid(rules: seq<Rule>, list: seq<nat>)
  {
    forall r :: r in rules ==> IsValidList(r, list)
  }

  /** A page of `rule.second` stands before a page of `rule.first`. */
  predicate Inverted(rule: Rule, list: seq<nat>)
  {
    exists i, j :: 0 <= i < j < |list| && list[i] == rule.second && list[j] == rule.first
  }

  predicate NoDuplicates(list: seq<nat>)
  {
    forall i, j :: 0 <= i < j < |list| ==> list[i] != list[j]
  }

  /** In a list without repeated pages, `is_valid_list` holds exactly when the rule's pages
      are not inverted (for a rule relating two different pages). */
  lemma ValidListIffNotInverted(rule: Rule, list: seq<nat>)
    requires NoDuplicates(list) && rule.first != rule.second
    ensures IsValidList(rule, list) <==> !Inverted(rule, list)
  {
    var f, s := IndexOf(list, rule.first), IndexOf(list, rule.second);
    if Inverted(rule, list) {
      var i, j :| 0 <= i < j < |list| && list[i] == rule.second && list[j] == rule.first;
      assert s.Some? && s.value <= i;
      assert f.Some? && f.value == j;
    }
    if f.Some? && s.Some? && f.value >= s.value {
      assert list[s.value] == rule.second && list[f.value] == rule.first;
      assert 0 <= s.value < f.value < |list|;
    }
  }

  /** The check of `valid_order` for one rule fails exactly when the rule's pages are
      inverted. */
  lemma InOrderForRule(update: seq<nat>, rule: Rule)
    ensures (forall i :: 0 <= i < |update| ==> IsValid(rule, update[..i], update[i]))
      <==> !Inverted(rule, update)
  {
    if exists i :: 0 <= i < |update| && !IsValid(rule, update[..i], update[i]) {
      var i :| 0 <= i < |update| && !IsValid(rule, update[..i], update[i]);
      var k :| 0 <= k < i && update[i] == rule.first && update[..i][k] == rule.second;
      assert update[k] == rule.second;
    }
    if Inverted(rule, update) {
      var i, j :| 0 <= i < j < |update| && update[i] == rule.second && update[j] == rule.first;
      assert update[..j][i] == rule.second;
      assert !IsValid(rule, update[..j], update[j]);
    }
  }

  /** In a list without repeated pages, the check of `valid_order` (each page against the
      pages before it) and the check of `is_valid_list` (first occurrences) agree, for rules
      that relate two different pages. */
  lemma InOrderIffAllValid(update: seq<nat>, rules: seq<Rule>)
    requires NoDuplicates(update)
    requires forall r :: r in rules ==> r.first != r.second
    ensures InOrder(update, rules) <==> AllValid(rules, update)
  {
    forall r | r in rules
      ensures IsValidList(r, update) <==> !Inverted(r, update)
      ensures (forall i :: 0 <= i < |update| ==> IsValid(r, update[..i], update[i]))
        <==> !Inverted(r, update)
    {
      ValidListIffNotInverted(r, update);
      InOrderForRule(update, r);
    }
  }

  /** `valid_order`: walks the update with the slice of pages inserted so far, stopping at the
      first page some rule rejects. */
  method ValidOrder(update: seq<nat>, rules: seq<Rule>) returns (ok: bool)
    ensures ok == InOrder(update, rules)
  {
    var inserted := update[..0];
    for i := 0 to |update|
      invariant inserted == update[..i]
      invariant forall k :: 0 <= k < i ==> AllowedAfter(rules, update[..k], update[k])
    {
      var valid := true;
      for j := 0 to |rules|
        invariant valid == forall k :: 0 <= k < j ==> IsValid(rules[k], inserted, update[i])
      {
        valid := valid && IsValid(rules[j], inserted, update[i]);
      }
      if !valid {
        return false;
      }
      inserted := update[..|inserted| + 1];
    }
    return true;
  }

  /** The first rule that `list` breaks (`rules.iter().find`). */
  function FirstFailing(rules: seq<Rule>, list: seq<nat>): (r: Option<Rule>)
    ensures r.None? <==> AllValid(rules, list)
    ensures r.Some? ==> r.value in rules && !IsValidList(r.value, list)
  {
    if rules == [] then None
    else if !IsValidList(rules[0], list) then Some(rules[0])
    else
      var rest := FirstFailing(rules[1..], list);
      assert forall r :: r in rules ==> r == rules[0] || r in rules[1..];
      rest
  }

  /** `to_fixed`: pages are appended one at a time, and after each the pages of the first
      broken rule are swapped until no rule is broken. The Rust loop need not end when the
      rules contradict each other; here every swap spends one unit of `fuel`, and running out
      gives `None`. A result holds the pages of the update and breaks no rule. */
  method ToFixed(update: seq<nat>, rules: seq<Rule>, fuel: nat) returns (r: Option<seq<nat>>)
    ensures r.Some? ==> |r.value| == |update| && multiset(r.value) == multiset(update)
    ensures r.Some? ==> AllValid(rules, r.value)
  {
    var fixed: seq<nat> := [];
    var budget := fuel;
    while |fixed| != |update|
      invariant |fixed| <= |update| && multiset(fixed) == multiset(update[..|fixed|])
      invariant AllValid(rules, fixed)
      decreases |update| - |fixed|
    {
      var next := update[|fixed|];
      assert update[..|fixed| + 1] == update[..|fixed|] + [next];
      fixed := fixed + [next];
      ghost var placed := update[..|fixed|];
      var failing := FirstFailing(rules, fixed);
      while failing.Some?
        invariant |fixed| == |placed| && multiset(fixed) == multiset(placed)
        invariant failing == FirstFailing(rules, fixed)
        decreases budget
      {
        if budget == 0 {
          return None;
        }
        budget := budget - 1;
        var left := IndexOf(fixed, failing.value.first).value;
        var right := IndexOf(fixed, failing.value.second).value;
        SwapPermutes(fixed, left, right);
        fixed := fixed[left := fixed[right]][right := fixed[left]];
        failing := FirstFailing(rules, fixed);
      }
    }
    assert update[..|fixed|] == update;
    return Some(fixed);
  }

  /** A page occurs at most once in a list without repeated pages. */
  lemma {:induction false} NoDuplicatesCount(list: seq<nat>, page: nat)
    requires NoDuplicates(list)
    ensures multiset(list)[page] <= 1
  {
    if list != [] {
      assert list == [list[0]] + list[1..];
      NoDuplicatesCount(list[1..], page);
      if list[0] == page {
        assert page !in list[1..] by {
          forall k | 0 <= k < |list[1..]| ensures list[1..][k] != page {
            assert list[1..][k] == list[k + 1];
          }
        }
      }
    }
  }

  /** Rearranging a list without repeated pages repeats no page. */
  lemma PermutationNoDuplicates(list: seq<nat>, other: seq<nat>)
    requires NoDuplicates(list) && multiset(other) == multiset(list)
    ensures NoDuplicates(other)
  {
    forall i, j | 0 <= i < j < |other|
      ensures other[i] != other[j]
    {
      if other[i] == other[j] {
        var x := other[i];
        assert other == other[..i] + [x] + other[i + 1..j] + [x] + other[j + 1..];
        assert multiset(other)[x] >= 2;
        NoDuplicatesCount(list, x);
        assert false;
      }
    }
  }

  /** A repaired update without repeated pages passes `valid_order`, for rules that relate
      two different pages: the repair that `part2` sums is one that `part1` would accept. */
  lemma RepairIsInOrder(update: seq<nat>, rules: seq<Rule>, fixed: seq<nat>)
    requires NoDuplicates(update) && multiset(fixed) == multiset(update)
    requires AllValid(rules, fixed)
    requires forall r :: r in rules ==> r.first != r.second
    ensures InOrder(fixed, rules)
  {
    PermutationNoDuplicates(update, fixed);
    InOrderIffAllValid(fixed, rules);
  }

  /** `get_middle`: the page in the middle, with as many pages after it as before it when the
      length is odd, and one more before it when it is even. */
  function Middle(update: seq<nat>): (r: nat)
    requires |update| > 0
    ensures r in update
    ensures exists m :: (0 <= m < |update| && update[m] == r
                         && 0 <= |update[..m]| - |update[m + 1..]| <= 1)
  {
    var m := |update| / 2;
    assert 0 <= |update[..m]| - |update[m + 1..]| <= 1;
    update[m]
  }

  /** `part1`: the sum of the middle pages of the updates already in order. */
  function Part1Of(rules: seq<Rule>, updates: seq<seq<nat>>): nat
    requires forall k :: 0 <= k < |updates| ==> |updates[k]| > 0
  {
    if updates == [] then 0
    else
      var middle := if InOrder(updates[0], rules) then Middle(updates[0]) else 0;
      middle + Part1Of(rules, updates[1..])
  }

  method Part1(input: Parsed) returns (sum: nat)
    requires forall k :: 0 <= k < |input.updates| ==> |input.updates[k]| > 0
    ensures sum == Part1Of(input.rules, input.updates)
  {
    sum := 0;
    var k := |input.updates|;
    while k > 0
      invariant 0 <= k <= |input.updates|
      invariant sum == Part1Of(input.rules, input.updates[k..])
    {
      k := k - 1;
      var update := input.updates[k];
      var ok := ValidOrder(update, input.rules);
      assert input.updates[k..][1..] == input.updates[k + 1..];
      if ok {
        sum := Middle(update) + sum;
      }
    }
    assert input.updates[0..] == input.updates;
  }

  /** `fixes[k]` is a repair of the `k`-th update that is out of order: the same pages, with
      no rule broken. */
  predicate Repairs(rules: seq<Rule>, updates: seq<seq<nat>>, fixes: seq<seq<nat>>)
  {
    var broken := OutOfOrder(rules, updates);
    |fixes| == |broken| && forall k :: 0 <= k < |fixes| ==> Repaired(rules, broken[k], fixes[k])
  }

  /** `fixed` holds the pages of `update`, each as often, and keeps every rule. */
  predicate Repaired(rules: seq<Rule>, update: seq<nat>, fixed: seq<nat>)
  {
    |fixed| == |update| && multiset(fixed) == multiset(update) && AllValid(rules, fixed)
  }

  /** The updates that are out of order, in their order. */
  function OutOfOrder(rules: seq<Rule>, updates: seq<seq<nat>>): seq<seq<nat>>
  {
    if updates == [] then []
    else (if InOrder(updates[0], rules) then [] else [updates[0]]) + OutOfOrder(rules, updates[1..])
  }

  /** `OutOfOrder` keeps only updates of the input, and only those out of order; every update
      out of order is kept. */
  lemma {:induction false} OutOfOrderMembers(rules: seq<Rule>, updates: seq<seq<nat>>)
    ensures forall u :: u in OutOfOrder(rules, updates) <==> u in updates && !InOrder(u, rules)
  {
    if updates != [] {
      OutOfOrderMembers(rules, updates[1..]);
      assert updates == [updates[0]] + updates[1..];
    }
  }

  function SumMiddles(lists: seq<seq<nat>>): nat
    requires forall k :: 0 <= k < |lists| ==> |lists[k]| > 0
  {
    if lists == [] then 0 else Middle(lists[0]) + SumMiddles(lists[1..])
  }

  predicate NonEmpty(lists: seq<seq<nat>>)
  {
    forall k :: 0 <= k < |lists| ==> |lists[k]| > 0
  }

  /** An update already in order needs no repair. */
  lemma RepairsSkip(rules: seq<Rule>, updates: seq<seq<nat>>, fixes: seq<seq<nat>>)
    requires updates != [] && InOrder(updates[0], rules)
    requires Repairs(rules, updates[1..], fixes)
    ensures Repairs(rules, updates, fixes)
  {
  }

  /** A repair of an update out of order is put in front of the repairs of the rest. */
  lemma RepairsCons(rules: seq<Rule>, updates: seq<seq<nat>>, fixes: seq<seq<nat>>,
                    fixed: seq<nat>)
    requires updates != [] && !InOrder(updates[0], rules)
    requires Repairs(rules, updates[1..], fixes)
    requires |fixed| == |updates[0]| && multiset(fixed) == multiset(updates[0])
    requires AllValid(rules, fixed)
    ensures Repairs(rules, updates, [fixed] + fixes)
  {
    var rest := OutOfOrder(rules, updates[1..]);
    assert OutOfOrder(rules, updates) == [updates[0]] + rest;
    RepairedCons(rules, updates[0], fixed, rest, fixes);
  }

  lemma RepairedCons(rules: seq<Rule>, update: seq<nat>, fixed: seq<nat>,
                     rest: seq<seq<nat>>, fixes: seq<seq<nat>>)
    requires Repaired(rules, update, fixed)
    requires |fixes| == |rest| && forall k :: 0 <= k < |fixes| ==> Repaired(rules, rest[k], fixes[k])
    ensures forall k :: 0 <= k < |fixes| + 1 ==>
      Repaired(rules, ([update] + rest)[k], ([fixed] + fixes)[k])
  {
    forall k | 1 <= k < |fixes| + 1
      ensures Repaired(rules, ([update] + rest)[k], ([fixed] + fixes)[k])
    {
      assert ([update] + rest)[k] == rest[k - 1] && ([fixed] + fixes)[k] == fixes[k - 1];
    }
  }

  /** `part2`: the sum of the middle pages of the out-of-order updates once repaired; `None`
      when some repair runs out of fuel (where the Rust loop would not end). */
  method Part2(input: Parsed, fuel: nat) returns (r: Option<nat>)
    requires NonEmpty(input.updates)
    ensures r.Some? ==> exists fixes :: (Repairs(input.rules, input.updates, fixes)
                                         && NonEmpty(fixes) && r.value == SumMiddles(fixes))
  {
    var sum := 0;
    ghost var fixes: seq<seq<nat>> := [];
    var k := |input.updates|;
    while k > 0
      invariant 0 <= k <= |input.updates|
      invariant Repairs(input.rules, input.updates[k..], fixes)
      invariant NonEmpty(fixes) && sum == SumMiddles(fixes)
    {
      k := k - 1;
      var update := input.updates[k];
      var ok := ValidOrder(update, input.rules);
      assert input.updates[k..][1..] == input.updates[k + 1..];
      if ok {
        RepairsSkip(input.rules, input.updates[k..], fixes);
      } else {
        var fixed := ToFixed(update, input.rules, fuel);
        if fixed.None? {
          return None;
        }
        RepairsCons(input.rules, input.updates[k..], fixes, fixed.value);
        sum := Middle(fixed.value) + sum;
        fixes := [fixed.value] + fixes;
        assert fixes[1..] == fixes[|fixes| - |fixes| + 1..];
      }
    }
    assert input.updates[0..] == input.updates;
    return Some(sum);
  }

  datatype ParseError = NoBlankLine | NoBar | NotANumber

  /** One rule line "a|b". */
  function ParseRule(line: string): Result<Rule, ParseError>
  {
    match SplitOnce(line, "|")
    case None => Err(NoBar)
    case Some((a, b)) =>
      match (ParseUnsigned(a, U32_MAX), ParseUnsigned(b, U32_MAX))
      case (Some(x), Some(y)) => Ok(Rule(x, y))
      case _ => Err(NotANumber)
  }

  /** A rule written as "a|b" reads back as that rule. */
  lemma ParseRuleRoundTrip(a: nat, b: nat)
    requires a <= U32_MAX && b <= U32_MAX
    ensures ParseRule(ToString(a) + "|" + ToString(b)) == Ok(Rule(a, b))
  {
    assert '|' !in ToString(a) by {
      forall i | 0 <= i < |ToString(a)| ensures ToString(a)[i] != '|' {
        assert IsDigitChar(ToString(a)[i]);
      }
    }
    SplitOnceAt(ToString(a), "|", ToString(b));
    ParseToString(a, U32_MAX);
    ParseToString(b, U32_MAX);
  }

  /** Every line a rule, in order; the first bad line is the error. */
  function ParseRules(lines: seq<string>): (r: Result<seq<Rule>, ParseError>)
    ensures r.Ok? <==> forall k :: 0 <= k < |lines| ==> ParseRule(lines[k]).Ok?
    ensures r.Ok? ==> (|r.value| == |lines|
                       && forall k :: 0 <= k < |lines| ==> ParseRule(lines[k]) == Ok(r.value[k]))
  {
    if lines == [] then Ok([])
    else
      var rule := ParseRule(lines[0]);
      if rule.Err? then Err(rule.error)
      else
        var rest := ParseRules(lines[1..]);
        if rest.Err? then rest else Ok([rule.value] + rest.value)
  }

  /** Every line an update; an update is never empty, since splitting gives at least one
      piece. */
  function ParseUpdates(lines: seq<string>): (r: Result<seq<seq<nat>>, ParseError>)
    ensures r.Ok? <==> forall k :: 0 <= k < |lines| ==> ParseAll(Split(lines[k], ','), U32_MAX).Some?
    ensures r.Ok? ==> (|r.value| == |lines|
                       && forall k :: 0 <= k < |lines| ==> ParseAll(Split(lines[k], ','), U32_MAX) == Some(r.value[k]))
    ensures r.Ok? ==> forall k :: 0 <= k < |r.value| ==> |r.value[k]| > 0
  {
    if lines == [] then Ok([])
    else
      match ParseAll(Split(lines[0], ','), U32_MAX)
      case None => Err(NotANumber)
      case Some(update) =>
        assert forall k :: 1 <= k < |lines| ==> lines[k] == lines[1..][k - 1];
        match ParseUpdates(lines[1..])
        case Err(e) => Err(e)
        case Ok(rest) => Ok([update] + rest)
  }

  /** `parse`: the rules before the first blank line, the updates after it. */
  function Parse(input: string): (r: Result<Parsed, ParseError>)
    ensures SplitOnce(input, "\n\n").None? ==> r == Err(NoBlankLine)
    ensures r.Ok? ==> forall k :: 0 <= k < |r.value.updates| ==> |r.value.updates[k]| > 0
  {
    match SplitOnce(input, "\n\n")
    case None => Err(NoBlankLine)
    case Some((orders, updates)) =>
      match ParseRules(Lines(orders))
      case Err(e) => Err(e)
      case Ok(rules) =>
        match ParseUpdates(Lines(updates))
        case Err(e) => Err(e)
        case Ok(us) => Ok(Parsed(rules, us))
  }
}
