/** 2024 day 1: two columns of location ids. Part 1 pairs the smallest with the smallest, the
    second smallest with the second smallest and so on, and adds up the distances; part 2
    weighs every left id by how often it occurs on the right. */
module LocationLists {
  import opened Wrappers
  import opened Text
  import opened Decimal

  const U32_MAX: nat := 0xFFFF_FFFF

  datatype ParseError = NoSeparator | NotANumber

  /** One line "l   r" (three spaces). */
  function ParsePair(line: string): Result<(nat, nat), ParseError>
  {
    match SplitOnce(line, "   ")
    case None => Err(NoSeparator)
    case Some((l, r)) =>
      match (ParseUnsigned(l, U32_MAX), ParseUnsigned(r, U32_MAX))
      case (Some(a), Some(b)) => Ok((a, b))
      case _ => Err(NotANumber)
  }

  /** A pair written as "l   r" reads back as that pair. */
  lemma ParsePairRoundTrip(a: nat, b: nat)
    requires a <= U32_MAX && b <= U32_MAX
    ensures ParsePair(ToString(a) + "   " + ToString(b)) == Ok((a, b))
  {
    assert ' ' !in ToString(a) by {
      forall i | 0 <= i < |ToString(a)| ensures ToString(a)[i] != ' ' {
        assert IsDigitChar(ToString(a)[i]);
      }
    }
    SplitOnceAt(ToString(a), "   ", ToString(b));
    ParseToString(a, U32_MAX);
    ParseToString(b, U32_MAX);
  }

  /** Line `i` reads as the pair (`left[i]`, `right[i]`), for every line. */
  predicate PairsOf(lines: seq<string>, left: seq<nat>, right: seq<nat>)
  {
    |left| == |right| == |lines|
    && forall i :: 0 <= i < |lines| ==> ParsePair(lines[i]) == Ok((left[i], right[i]))
  }

  predicate AllPairs(lines: seq<string>)
  {
    forall i :: 0 <= i < |lines| ==> ParsePair(lines[i]).Ok?
  }

  /** `parse`: line `i` gives entry `i` of both lists; the first bad line is the error. */
  method Parse(input: string) returns (r: Result<(seq<nat>, seq<nat>), ParseError>)
    ensures r.Ok? <==> AllPairs(Lines(input))
    ensures r.Ok? ==> PairsOf(Lines(input), r.value.0, r.value.1)
  {
    r := ParseLines(Lines(input));
  }

  /** The loop of `parse`: the pair of each line is pushed onto the two lists in turn. */
  method ParseLines(lines: seq<string>) returns (r: Result<(seq<nat>, seq<nat>), ParseError>)
    ensures r.Ok? <==> AllPairs(lines)
    ensures r.Ok? ==> PairsOf(lines, r.value.0, r.value.1)
  {
    var left, right := [], [];
    for i := 0 to |lines|
      invariant PairsOf(lines[..i], left, right)
    {
      var pair := ParsePair(lines[i]);
      if pair.Err? {
        return Err(pair.error);
      }
      assert lines[..i + 1] == lines[..i] + [lines[i]];
      left := left + [pair.value.0];
      right := right + [pair.value.1];
    }
    assert lines[..|lines|] == lines;
    return Ok((left, right));
  }

  predicate Sorted(s: seq<nat>)
  {
    forall i, j :: 0 <= i < j < |s| ==> s[i] <= s[j]
  }

  /** `x` placed into the sorted `s` before the first larger entry. */
  function Insert(x: nat, s: seq<nat>): (r: seq<nat>)
    requires Sorted(s)
    ensures Sorted(r) && multiset(r) == multiset(s) + multiset{x}
    ensures r[0] == x || (s != [] && r[0] == s[0])
  {
    if s == [] then [x]
    else if x <= s[0] then [x] + s
    else
      var rest := Insert(x, s[1..]);
      assert s == [s[0]] + s[1..];
      SortedCons(s[0], rest);
      [s[0]] + rest
  }

  lemma SortedCons(x: nat, s: seq<nat>)
    requires Sorted(s) && (s != [] ==> x <= s[0])
    ensures Sorted([x] + s)
  {
    var t := [x] + s;
    forall i, j | 0 <= i < j < |t| ensures t[i] <= t[j] {
      if i == 0 && j > 1 {
        assert t[j] == s[j - 1] >= s[0];
      }
    }
  }

  /** The entries of `s` in ascending order (what `Vec::sort` leaves in the clone). */
  function SortedOf(s: seq<nat>): (r: seq<nat>)
    ensures Sorted(r) && multiset(r) == multiset(s)
  {
    if s == [] then []
    else
      assert s == [s[0]] + s[1..];
      Insert(s[0], SortedOf(s[1..]))
  }

  /** The least entry of a sorted sequence is its first one. */
  lemma SortedHeadIsMin(s: seq<nat>)
    requires Sorted(s) && s != []
    ensures forall x :: x in multiset(s) ==> s[0] <= x
  {
  }

  lemma SortedTail(a: seq<nat>)
    requires Sorted(a) && a != []
    ensures Sorted(a[1..])
  {
  }

  lemma TailMultiset(a: seq<nat>)
    requires a != []
    ensures multiset(a[1..]) == multiset(a) - multiset{a[0]}
  {
    assert a == [a[0]] + a[1..];
    assert multiset(a) == multiset{a[0]} + multiset(a[1..]);
  }

  lemma SameHead(a: seq<nat>, b: seq<nat>)
    requires Sorted(a) && Sorted(b) && multiset(a) == multiset(b) && a != []
    ensures b != [] && a[0] == b[0]
  {
    assert a[0] in multiset(b) by { assert a[0] in multiset(a); }
    assert b != [];
    assert b[0] in multiset(a) by { assert b[0] in multiset(b); }
    SortedHeadIsMin(a);
    SortedHeadIsMin(b);
  }

  /** There is only one sorted arrangement of a multiset, so `part1` does not depend on the
      sorting algorithm. */
  lemma {:induction false} SortedUnique(a: seq<nat>, b: seq<nat>)
    requires Sorted(a) && Sorted(b) && multiset(a) == multiset(b)
    ensures a == b
  {
    if a != [] {
      SameHead(a, b);
      TailMultiset(a);
      TailMultiset(b);
      SortedTail(a);
      SortedTail(b);
      SortedUnique(a[1..], b[1..]);
      assert a == [a[0]] + a[1..] && b == [b[0]] + b[1..];
    } else {
      assert |b| == |multiset(b)| == 0;
    }
  }

  function AbsDiff(a: nat, b: nat): nat
  {
    if a < b then b - a else a - b
  }

  /** The sum of the distances of the pairs `zip` forms (stopping at the shorter list). */
  function DistanceSum(a: seq<nat>, b: seq<nat>): nat
  {
    if a == [] || b == [] then 0 else AbsDiff(a[0], b[0]) + DistanceSum(a[1..], b[1..])
  }

  lemma {:induction false} DistanceSumSymmetric(a: seq<nat>, b: seq<nat>)
    ensures DistanceSum(a, b) == DistanceSum(b, a)
  {
    if a != [] && b != [] {
      DistanceSumSymmetric(a[1..], b[1..]);
    }
  }

  /** Two lists are zero apart exactly when they are equal, for lists of the same length. */
  lemma {:induction false} DistanceSumZero(a: seq<nat>, b: seq<nat>)
    requires |a| == |b|
    ensures DistanceSum(a, b) == 0 <==> a == b
  {
    if a != [] {
      DistanceSumZero(a[1..], b[1..]);
      assert a == [a[0]] + a[1..] && b == [b[0]] + b[1..];
    }
  }

  /** The distance total of two lists: the sum of the distances of their sorted entries. */
  function TotalDistance(left: seq<nat>, right: seq<nat>): nat
  {
    DistanceSum(SortedOf(left), SortedOf(right))
  }

  /** The total distance depends only on which ids each list holds, and swapping the lists
      does not change it. */
  lemma TotalDistanceProperties(left: seq<nat>, right: seq<nat>, left': seq<nat>, right': seq<nat>)
    requires multiset(left) == multiset(left') && multiset(right) == multiset(right')
    ensures TotalDistance(left, right) == TotalDistance(left', right')
    ensures TotalDistance(left, right) == TotalDistance(right, left)
  {
    SortedUnique(SortedOf(left), SortedOf(left'));
    SortedUnique(SortedOf(right), SortedOf(right'));
    DistanceSumSymmetric(SortedOf(left), SortedOf(right));
  }

  /** Lists of the same length are zero apart exactly when they hold the same ids. */
  lemma TotalDistanceZero(left: seq<nat>, right: seq<nat>)
    requires |left| == |right|
    ensures TotalDistance(left, right) == 0 <==> multiset(left) == multiset(right)
  {
    var sl, sr := SortedOf(left), SortedOf(right);
    assert |sl| == |multiset(sl)| == |left| && |sr| == |multiset(sr)| == |right|;
    DistanceSumZero(sl, sr);
    if multiset(left) == multiset(right) {
      SortedUnique(sl, sr);
    }
  }

  /** `part1`: the clones are sorted and the distances of the pairs summed. */
  method Part1(left: seq<nat>, right: seq<nat>) returns (total: nat)
    ensures total == TotalDistance(left, right)
  {
    total := SumDistances(SortedOf(left), SortedOf(right));
  }

  /** The `zip`/`map`/`sum` chain of `part1`. */
  method SumDistances(l: seq<nat>, r: seq<nat>) returns (total: nat)
    ensures total == DistanceSum(l, r)
  {
    total := 0;
    var i := 0;
    while i < |l| && i < |r|
      invariant i <= |l| && i <= |r|
      invariant total + DistanceSum(l[i..], r[i..]) == DistanceSum(l, r)
    {
      assert l[i..][1..] == l[i + 1..] && r[i..][1..] == r[i + 1..];
      total := total + AbsDiff(l[i], r[i]);
      i := i + 1;
    }
  }

  /** The occurrence map that `part2` builds: every id of `right`, with how often it occurs. */
  method Occurrences(right: seq<nat>) returns (counts: map<nat, nat>)
    ensures counts.Keys == set x | x in right
    ensures forall x :: x in counts ==> counts[x] == multiset(right)[x]
  {
    counts := map[];
    for i := 0 to |right|
      invariant counts.Keys == set x | x in right[..i]
      invariant forall x :: x in counts ==> counts[x] == multiset(right[..i])[x]
    {
      var number: nat := right[i];
      assert right[..i + 1] == right[..i] + [number];
      if number in counts {
        counts := counts[number := counts[number] + 1];
      } else {
        counts := counts[number := 1];
      }
    }
    assert right[..|right|] == right;
  }

  /** Each left id weighed by its number of occurrences on the right. */
  function Similarity(left: seq<nat>, right: seq<nat>): nat
  {
    if left == [] then 0 else left[0] * multiset(right)[left[0]] + Similarity(left[1..], right)
  }

  /** The sum over `s` of `x` times how often `x` occurs in `m`. */
  function Weighted(s: seq<nat>, m: multiset<nat>): nat
  {
    if s == [] then 0 else s[0] * m[s[0]] + Weighted(s[1..], m)
  }

  lemma {:induction false} WeightedAdd(s: seq<nat>, m: multiset<nat>, x: nat)
    ensures Weighted(s, m + multiset{x}) == Weighted(s, m) + x * multiset(s)[x]
  {
    if s != [] {
      var h: nat, t: seq<nat> := s[0], s[1..];
      WeightedAdd(t, m, x);
      assert s == [h] + t;
      assert multiset(s) == multiset{h} + multiset(t);
      if h == x {
        assert multiset(s)[x] == multiset(t)[x] + 1;
        assert (m + multiset{x})[h] == m[h] + 1;
        MulSucc(h, m[h]);
        MulSucc(x, multiset(t)[x]);
      } else {
        assert multiset(s)[x] == multiset(t)[x];
        assert (m + multiset{x})[h] == m[h];
      }
    }
  }

  lemma MulSucc(a: nat, b: nat)
    ensures a * (b + 1) == a * b + a
  {
  }

  /** Weighing the left ids by the right counts gives the same as weighing the right ids by
      the left counts: both count `x * x` once per pair of equal ids. */
  lemma {:induction false} SimilaritySymmetric(left: seq<nat>, right: seq<nat>)
    ensures Similarity(left, right) == Similarity(right, left)
  {
    SimilarityIsWeighted(left, right);
    SimilarityIsWeighted(right, left);
    WeightedSwap(left, right);
  }

  lemma {:induction false} SimilarityIsWeighted(left: seq<nat>, right: seq<nat>)
    ensures Similarity(left, right) == Weighted(left, multiset(right))
  {
    if left != [] {
      SimilarityIsWeighted(left[1..], right);
    }
  }

  lemma {:induction false} WeightedSwap(a: seq<nat>, b: seq<nat>)
    ensures Weighted(a, multiset(b)) == Weighted(b, multiset(a))
  {
    if a != [] {
      assert a == [a[0]] + a[1..];
      assert multiset(a) == multiset(a[1..]) + multiset{a[0]};
      WeightedSwap(a[1..], b);
      WeightedAdd(b, multiset(a[1..]), a[0]);
    } else {
      WeightedEmpty(b);
    }
  }

  lemma {:induction false} WeightedEmpty(s: seq<nat>)
    ensures Weighted(s, multiset{}) == 0
  {
    if s != [] {
      WeightedEmpty(s[1..]);
    }
  }

  /** `part2`: the occurrence map is built from `right`, then each left id is multiplied by
      its count there, or by 0 when it does not occur. */
  method Part2(left: seq<nat>, right: seq<nat>) returns (total: nat)
    ensures total == Similarity(left, right)
  {
    var counts := Occurrences(right);
    total := 0;
    var i := |left|;
    while i > 0
      invariant 0 <= i <= |left|
      invariant total == Similarity(left[i..], right)
    {
      i := i - 1;
      assert left[i..][1..] == left[i + 1..];
      var number: nat := left[i];
      var count := if number in counts then counts[number] else 0;
      assert count == multiset(right)[number];
      total := number * count + total;
    }
    assert left[0..] == left;
  }
}
