/** The string and slice splitting that every `parse` uses: `slice::split` and `str::split`
    on one separator, `str::lines`, `str::split_once`, `str::split_whitespace` and
    `str::replace(sep, "")`. */
module Text {
  import opened Wrappers

  /** Position of the first `x` in `s` (`Iterator::position`). */
  function IndexOf<T(==)>(s: seq<T>, x: T): (r: Option<nat>)
    ensures r.None? <==> x !in s
    ensures r.Some? ==> r.value < |s| && s[r.value] == x && x !in s[..r.value]
  {
    if |s| == 0 then None
    else if s[0] == x then Some(0)
    else
      match IndexOf(s[1..], x)
      case None => None
      case Some(i) =>
        assert s[..i + 1] == [s[0]] + s[1..][..i];
        Some(i + 1)
  }

  /** `slice::split(|b| *b == sep)`: the pieces between separators, always one more than
      there are separators (so the empty input gives one empty piece). */
  function Split<T(==)>(s: seq<T>, sep: T): (r: seq<seq<T>>)
    ensures |r| == multiset(s)[sep] + 1
    ensures forall k :: 0 <= k < |r| ==> sep !in r[k]
    decreases |s|
  {
    match IndexOf(s, sep)
    case None => [s]
    case Some(i) =>
      assert s == s[..i] + [sep] + s[i + 1..];
      assert multiset(s)[sep] == multiset(s[..i])[sep] + 1 + multiset(s[i + 1..])[sep];
      [s[..i]] + Split(s[i + 1..], sep)
  }

  /** The inverse of `Split`: the pieces glued back with the separator between them. */
  function Join<T>(pieces: seq<seq<T>>, sep: T): seq<T>
  {
    if |pieces| == 0 then []
    else if |pieces| == 1 then pieces[0]
    else pieces[0] + [sep] + Join(pieces[1..], sep)
  }

  /** Splitting and joining again gives back the input: no byte is lost or invented. */
  lemma {:induction false} JoinSplit<T>(s: seq<T>, sep: T)
    ensures Join(Split(s, sep), sep) == s
    decreases |s|
  {
    match IndexOf(s, sep)
    case None =>
    case Some(i) =>
      JoinSplit(s[i + 1..], sep);
      assert s == s[..i] + [sep] + s[i + 1..];
  }

  /** `filter(|line| !line.is_empty())`: the non-empty pieces, in their order. None is lost
      and none is invented, so the result is empty exactly when every piece is. */
  function NonEmpty<T(==)>(pieces: seq<seq<T>>): (r: seq<seq<T>>)
    ensures |r| <= |pieces|
    ensures forall k :: 0 <= k < |r| ==> |r[k]| > 0
  {
    if pieces == [] then []
    else if |pieces[0]| == 0 then NonEmpty(pieces[1..])
    else [pieces[0]] + NonEmpty(pieces[1..])
  }

  /** `NonEmpty` keeps exactly the non-empty pieces, so it is empty exactly when every piece
      is. */
  lemma {:induction false} NonEmptyMembers<T>(pieces: seq<seq<T>>)
    ensures forall k :: 0 <= k < |NonEmpty(pieces)| ==> NonEmpty(pieces)[k] in pieces
    ensures forall i :: 0 <= i < |pieces| && |pieces[i]| > 0 ==> pieces[i] in NonEmpty(pieces)
    ensures |NonEmpty(pieces)| == 0 <==> forall i :: 0 <= i < |pieces| ==> |pieces[i]| == 0
  {
    if pieces != [] {
      var rest := pieces[1..];
      NonEmptyMembers(rest);
      assert forall i :: 1 <= i < |pieces| ==> pieces[i] == rest[i - 1];
      if |pieces[0]| > 0 {
        assert NonEmpty(pieces) == [pieces[0]] + NonEmpty(rest);
      }
    }
  }

  /** Pieces that are all non-empty pass `NonEmpty` unchanged, and an empty piece before or
      after them is dropped. */
  lemma {:induction false} NonEmptyKeepsFull<T>(pieces: seq<seq<T>>)
    requires forall i :: 0 <= i < |pieces| ==> |pieces[i]| > 0
    ensures NonEmpty(pieces) == pieces
    ensures NonEmpty(pieces + [[]]) == pieces
    ensures NonEmpty([[]] + pieces) == pieces
  {
    assert ([[]] + pieces)[1..] == pieces;
    if pieces == [] {
      assert pieces + [[]] == [[]];
    } else {
      var rest := pieces[1..];
      NonEmptyKeepsFull(rest);
      assert (pieces + [[]])[1..] == rest + [[]];
      assert pieces == [pieces[0]] + rest;
    }
  }

  /** `str::lines`: pieces ended by '\n', where a "\r\n" ending loses its '\r' too; a final
      line ending does not open an empty last line, and the empty string has no lines. */
  function Lines(s: string): (r: seq<string>)
    ensures s == [] <==> r == []
    ensures forall k :: 0 <= k < |r| ==> '\n' !in r[k]
    decreases |s|
  {
    if s == [] then []
    else
      match IndexOf(s, '\n')
      case None => [s]
      case Some(i) => [StripCr(s[..i])] + Lines(s[i + 1..])
  }

  /** Drops one trailing '\r', the rest of a "\r\n" line ending. */
  function StripCr(line: string): (r: string)
    ensures r == line || (r + "\r" == line)
    ensures '\n' !in line ==> '\n' !in r
  {
    if |line| > 0 && line[|line| - 1] == '\r' then line[..|line| - 1] else line
  }

  /** The pieces with the empty one that follows a final '\n' (or that the empty input is
      made of) dropped. */
  function DropFinalEmpty(s: string, pieces: seq<string>): seq<string>
    requires |pieces| > 0
  {
    if s == [] || s[|s| - 1] == '\n' then pieces[..|pieces| - 1] else pieces
  }

  /** Without carriage returns, the lines are the '\n'-separated pieces, minus the empty piece
      that follows a final '\n' (or that the empty input is made of). */
  lemma {:induction false} LinesAreSplitPieces(s: string)
    requires '\r' !in s
    ensures Lines(s) == DropFinalEmpty(s, Split(s, '\n'))
    decreases |s|
  {
    if s != [] {
      match IndexOf(s, '\n')
      case None =>
        assert s[|s| - 1] in s;
      case Some(i) =>
        LinesStep(s, i);
        LinesAreSplitPieces(s[i + 1..]);
        DropFinalEmptyCons(s, i, Split(s[i + 1..], '\n'));
    }
  }

  lemma LinesStep(s: string, i: nat)
    requires '\r' !in s && s != [] && IndexOf(s, '\n') == Some(i)
    ensures '\r' !in s[i + 1..]
    ensures Lines(s) == [s[..i]] + Lines(s[i + 1..])
    ensures Split(s, '\n') == [s[..i]] + Split(s[i + 1..], '\n')
  {
    assert '\r' !in s[i + 1..] by { assert forall c :: c in s[i + 1..] ==> c in s; }
    assert StripCr(s[..i]) == s[..i] by {
      if i > 0 {
        assert s[..i][i - 1] in s;
      }
    }
    assert Lines(s) == [StripCr(s[..i])] + Lines(s[i + 1..]);
    SplitStep(s, '\n', i);
  }

  /** One step of `Split`: the piece before the first separator, then the rest split. */
  lemma SplitStep<T>(s: seq<T>, sep: T, i: nat)
    requires IndexOf(s, sep) == Some(i)
    ensures Split(s, sep) == [s[..i]] + Split(s[i + 1..], sep)
  {
  }

  lemma DropFinalEmptyCons(s: string, i: nat, pieces: seq<string>)
    requires i < |s| && s[i] == '\n' && |pieces| > 0
    ensures DropFinalEmpty(s, [s[..i]] + pieces) == [s[..i]] + DropFinalEmpty(s[i + 1..], pieces)
  {
    var rest := s[i + 1..];
    assert rest != [] ==> rest[|rest| - 1] == s[|s| - 1];
    assert ([s[..i]] + pieces)[..|pieces|] == [s[..i]] + pieces[..|pieces| - 1];
  }

  /** The concatenation of all pieces. */
  function Concat<T>(pieces: seq<seq<T>>): seq<T>
  {
    if |pieces| == 0 then [] else pieces[0] + Concat(pieces[1..])
  }

  /** Every line holds `width` characters. */
  predicate SameWidth(lines: seq<string>, width: nat)
  {
    forall k :: 0 <= k < |lines| ==> |lines[k]| == width
  }

  /** Lines of equal width concatenate to `width` characters per line. */
  lemma {:induction false} ConcatSameWidth(lines: seq<string>, width: nat)
    requires SameWidth(lines, width)
    ensures |Concat(lines)| == width * |lines|
  {
    if lines != [] {
      ConcatSameWidth(lines[1..], width);
      assert width * |lines| == width + width * |lines[1..]|;
    }
  }

  /** `str::replace(c, "")`: every occurrence of `c` taken out, everything else kept in order. */
  function Remove<T(==)>(s: seq<T>, c: T): (r: seq<T>)
    ensures c !in r
  {
    if |s| == 0 then []
    else
      (if s[0] == c then [] else [s[0]]) + Remove(s[1..], c)
  }

  lemma RemoveAppend<T>(a: seq<T>, b: seq<T>, c: T)
    ensures Remove(a + b, c) == Remove(a, c) + Remove(b, c)
    decreases |a|
  {
    if |a| > 0 {
      var h := if a[0] == c then [] else [a[0]];
      assert (a + b)[0] == a[0];
      assert (a + b)[1..] == a[1..] + b;
      assert Remove(a + b, c) == h + Remove(a[1..] + b, c);
      assert Remove(a, c) == h + Remove(a[1..], c);
      RemoveAppend(a[1..], b, c);
    } else {
      assert a + b == b;
    }
  }

  /** Gluing the lines of a text without carriage returns gives the text minus its newlines:
      what `str::replace("\n", "")` computes. */
  lemma {:induction false} ConcatLines(s: string)
    requires '\r' !in s
    ensures Concat(Lines(s)) == Remove(s, '\n')
    decreases |s|
  {
    if s != [] {
      match IndexOf(s, '\n')
      case None =>
        assert Lines(s) == [s];
        assert Concat([s]) == s + Concat([s][1..]);
        RemoveAbsent(s, '\n');
      case Some(i) =>
        var rest := s[i + 1..];
        assert '\r' !in rest by { assert forall c :: c in rest ==> c in s; }
        ConcatLines(rest);
        ConcatLinesStep(s, i);
        RemoveStep(s, i);
    }
  }

  lemma ConcatLinesStep(s: string, i: nat)
    requires '\r' !in s && s != [] && IndexOf(s, '\n') == Some(i)
    ensures Concat(Lines(s)) == s[..i] + Concat(Lines(s[i + 1..]))
  {
    assert StripCr(s[..i]) == s[..i];
    assert Lines(s) == [s[..i]] + Lines(s[i + 1..]);
  }

  lemma {:induction false} RemoveStep(s: string, i: nat)
    requires i < |s| && s[i] == '\n' && '\n' !in s[..i]
    ensures Remove(s, '\n') == s[..i] + Remove(s[i + 1..], '\n')
    decreases i
  {
    if i > 0 {
      var tail := s[1..];
      assert tail[..i - 1] == s[1..i] && tail[i..] == s[i + 1..];
      assert '\n' !in tail[..i - 1] by { assert forall c :: c in s[1..i] ==> c in s[..i]; }
      RemoveStep(tail, i - 1);
      assert s[0] != '\n' && Remove(s, '\n') == [s[0]] + Remove(tail, '\n');
      assert s[..i] == [s[0]] + s[1..i];
    }
  }

  lemma RemoveAbsent<T>(s: seq<T>, c: T)
    requires c !in s
    ensures Remove(s, c) == s
    decreases |s|
  {
    if |s| > 0 {
      assert c !in s[1..] by { assert forall x :: x in s[1..] ==> x in s; }
      RemoveAbsent(s[1..], c);
    }
  }

  /** Whether `pat` occurs in `s` at index `i`. */
  predicate OccursAt<T(==)>(s: seq<T>, pat: seq<T>, i: nat)
  {
    i + |pat| <= |s| && s[i..i + |pat|] == pat
  }

  /** The first index at which `pat` occurs in `s[from..]`, searching from `from` on. */
  function FindFrom<T(==)>(s: seq<T>, pat: seq<T>, from: nat): (r: Option<nat>)
    requires from <= |s|
    ensures r.Some? ==> from <= r.value && OccursAt(s, pat, r.value)
    ensures forall j :: from <= j && (r.Some? ==> j < r.value) ==> !OccursAt(s, pat, j)
    decreases |s| - from
  {
    if from + |pat| > |s| then None
    else if s[from..from + |pat|] == pat then Some(from)
    else FindFrom(s, pat, from + 1)
  }

  /** `str::split_once(pat)`: the text before and after the first occurrence of `pat`. */
  function SplitOnce<T(==)>(s: seq<T>, pat: seq<T>): (r: Option<(seq<T>, seq<T>)>)
    ensures r.Some? ==> r.value.0 + pat + r.value.1 == s
    ensures r.Some? ==> forall j: nat :: j < |r.value.0| ==> !OccursAt(s, pat, j)
    ensures r.None? ==> forall j: nat :: !OccursAt(s, pat, j)
  {
    match FindFrom(s, pat, 0)
    case None => None
    case Some(i) =>
      assert s == s[..i] + s[i..i + |pat|] + s[i + |pat|..];
      Some((s[..i], s[i + |pat|..]))
  }

  /** Splitting at a separator whose first element is absent from the text before it gives
      back both sides. */
  lemma SplitOnceAt<T>(a: seq<T>, pat: seq<T>, b: seq<T>)
    requires |pat| > 0 && pat[0] !in a
    ensures SplitOnce(a + pat + b, pat) == Some((a, b))
  {
    var s := a + pat + b;
    assert OccursAt(s, pat, |a|) by { assert s[|a|..|a| + |pat|] == pat; }
    var r := SplitOnce(s, pat);
    var x := r.value.0;
    assert OccursAt(s, pat, |x|) by {
      assert s[|x|..|x| + |pat|] == (x + pat + r.value.1)[|x|..|x| + |pat|] == pat;
    }
    forall j: nat | j < |a|
      ensures !OccursAt(s, pat, j)
    {
      assert s[j] == a[j];
      if j + |pat| <= |s| {
        assert s[j..j + |pat|][0] == a[j];
      }
    }
    assert x == s[..|a|] by { assert s[..|x|] == (x + pat + r.value.1)[..|x|]; }
    assert s[..|a|] == a;
    assert r.value.1 == s[|a| + |pat|..] by {
      assert (x + pat + r.value.1)[|x| + |pat|..] == r.value.1;
    }
    assert s[|a| + |pat|..] == b;
  }

  /** `char::is_whitespace`: the Unicode White_Space characters. */
  predicate IsWhitespace(c: char)
  {
    var n := c as int;
    (9 <= n <= 13) || n == 32 || n == 0x85 || n == 0xA0 || n == 0x1680
    || (0x2000 <= n <= 0x200A) || n == 0x2028 || n == 0x2029 || n == 0x202F
    || n == 0x205F || n == 0x3000
  }

  /** Length of the word at the front of `s`: up to the first whitespace character. */
  function WordLength(s: string): (n: nat)
    requires s != [] && !IsWhitespace(s[0])
    ensures 1 <= n <= |s|
    ensures forall i :: 0 <= i < n ==> !IsWhitespace(s[i])
    ensures n < |s| ==> IsWhitespace(s[n])
  {
    if |s| == 1 || IsWhitespace(s[1]) then 1 else 1 + WordLength(s[1..])
  }

  /** `str::split_whitespace`: the maximal runs of non-whitespace characters, in order. */
  function SplitWhitespace(s: string): (r: seq<string>)
    ensures forall k :: 0 <= k < |r| ==> IsWord(r[k])
    decreases |s|
  {
    if s == [] then []
    else if IsWhitespace(s[0]) then SplitWhitespace(s[1..])
    else
      var n := WordLength(s);
      [s[..n]] + SplitWhitespace(s[n..])
  }

  /** A non-empty string without whitespace. */
  predicate IsWord(w: string)
  {
    w != [] && forall i :: 0 <= i < |w| ==> !IsWhitespace(w[i])
  }

  /** Words joined with single spaces split back into the same words. */
  lemma {:induction false} SplitWhitespaceJoin(words: seq<string>)
    requires forall k :: 0 <= k < |words| ==> IsWord(words[k])
    ensures SplitWhitespace(Join(words, ' ')) == words
    decreases |words|
  {
    if |words| == 1 {
      var w := words[0];
      assert WordLength(w) == |w|;
      assert w[..|w|] == w;
    } else if |words| > 1 {
      var w := words[0];
      var rest := Join(words[1..], ' ');
      var s := w + [' '] + rest;
      assert s[..|w|] == w;
      assert WordLength(s) == |w| by { WordLengthPrefix(s, |w|); }
      assert s[|w|..] == [' '] + rest;
      assert ([' '] + rest)[1..] == rest;
      SplitWhitespaceJoin(words[1..]);
    }
  }

  lemma WordLengthPrefix(s: string, n: nat)
    requires 1 <= n <= |s|
    requires forall i :: 0 <= i < n ==> !IsWhitespace(s[i])
    requires n < |s| ==> IsWhitespace(s[n])
    ensures WordLength(s) == n
  {
    var m := WordLength(s);
    assert m < |s| ==> IsWhitespace(s[m]);
  }

  /** Exchanging two entries keeps the same entries. */
  lemma SwapPermutes<T>(s: seq<T>, i: nat, j: nat)
    requires i < |s| && j < |s|
    ensures multiset(s[i := s[j]][j := s[i]]) == multiset(s)
  {
    if i != j {
      var t := s[i := s[j]];
      assert multiset(t) == multiset(s) - multiset{s[i]} + multiset{s[j]};
    }
  }
}
