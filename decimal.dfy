/** Bytes as the Rust code sees them after `str::as_bytes`. */
module Bytes {

  newtype byte = b: int | 0 <= b < 256

  const NEWLINE: byte := 10
  const ZERO: byte := 48
  const NINE: byte := 57
  const PLUS: byte := 43
  const MINUS: byte := 45

  /** The bytes of an ASCII string. */
  function FromAscii(s: string): (r: seq<byte>)
    requires forall i :: 0 <= i < |s| ==> s[i] as int < 128
    ensures |r| == |s|
    ensures forall i :: 0 <= i < |s| ==> r[i] as int == s[i] as int
  {
    seq(|s|, i requires 0 <= i < |s| => s[i] as int as byte)
  }

  predicate IsAscii(s: string)
  {
    forall i :: 0 <= i < |s| ==> s[i] as int < 128
  }

  lemma FromAsciiAppend(a: string, b: string)
    requires IsAscii(a) && IsAscii(b)
    ensures IsAscii(a + b) && FromAscii(a + b) == FromAscii(a) + FromAscii(b)
  {
  }
}

/** Decimal numbers: digit strings and their values, the Rust `FromStr` parser of unsigned
    integers, the `atoi` crate's parser of byte slices, and decimal formatting. */
module Decimal {
  import opened Wrappers
  import opened Bytes
  import opened Text

  function Pow10(k: nat): (r: nat)
    ensures r >= 1
  {
    if k == 0 then 1 else 10 * Pow10(k - 1)
  }

  /** The value of digits written most significant first. */
  function Value(ds: seq<nat>): nat
  {
    if |ds| == 0 then 0 else Value(ds[..|ds| - 1]) * 10 + ds[|ds| - 1]
  }

  predicate IsDigitSeq(ds: seq<nat>)
  {
    forall i :: 0 <= i < |ds| ==> ds[i] < 10
  }

  /** Writing `b` after `a` shifts `a` left by `|b|` decimal places. */
  lemma {:induction false} ValueAppend(a: seq<nat>, b: seq<nat>)
    ensures Value(a + b) == Value(a) * Pow10(|b|) + Value(b)
    decreases |b|
  {
    if |b| == 0 {
      assert a + b == a;
    } else {
      var b' := b[..|b| - 1];
      assert (a + b)[..|a + b| - 1] == a + b';
      assert (a + b)[|a + b| - 1] == b[|b| - 1];
      ValueAppend(a, b');
      ShiftDigit(Value(a), Pow10(|b'|), Value(b'), b[|b| - 1]);
    }
  }

  lemma ShiftDigit(x: nat, p: nat, y: nat, d: nat)
    ensures (x * p + y) * 10 + d == x * (p * 10) + (y * 10 + d)
  {
  }

  /** `n` decimal digits stay below 10^n. */
  lemma {:induction false} ValueBound(ds: seq<nat>)
    requires IsDigitSeq(ds)
    ensures Value(ds) < Pow10(|ds|)
    decreases |ds|
  {
    if |ds| > 0 {
      ValueBound(ds[..|ds| - 1]);
    }
  }

  /** A digit string without a leading zero is at least 10^(n-1). */
  lemma ValueLeading(ds: seq<nat>)
    requires |ds| > 0 && ds[0] != 0
    ensures Value(ds) >= Pow10(|ds| - 1)
  {
    assert ds == [ds[0]] + ds[1..];
    ValueAppend([ds[0]], ds[1..]);
    assert Value([ds[0]]) == ds[0] by { assert [ds[0]][..0] == []; }
  }

  /** The decimal digits of `n`, without leading zeros. */
  function Digits(n: nat): (ds: seq<nat>)
    ensures IsDigitSeq(ds) && |ds| >= 1 && Value(ds) == n
    ensures ds[0] != 0 || n == 0
    ensures n < 10 ==> ds == [n]
  {
    if n < 10 then [n]
    else
      var ds := Digits(n / 10) + [n % 10];
      assert ds[..|ds| - 1] == Digits(n / 10);
      ds
  }

  /** The number of decimal digits of `n` (`ilog10(n) + 1`). */
  function NumDigits(n: nat): (k: nat)
    ensures k >= 1 && n < Pow10(k)
    ensures n > 0 ==> Pow10(k - 1) <= n
  {
    var ds := Digits(n);
    ValueBound(ds);
    if n > 0 then ValueLeading(ds); |ds| else |ds|
  }

  /** A digit string is the decimal form of its value exactly when it has no leading zero. */
  lemma {:induction false} DigitsOfValue(ds: seq<nat>)
    requires IsDigitSeq(ds) && |ds| >= 1 && (ds[0] != 0 || |ds| == 1)
    ensures Digits(Value(ds)) == ds
    decreases |ds|
  {
    if |ds| > 1 {
      var p, d := ds[..|ds| - 1], ds[|ds| - 1];
      assert p[0] == ds[0];
      ValueLeading(p);
      var v := Value(ds);
      assert v == Value(p) * 10 + d;
      assert v / 10 == Value(p) && v % 10 == d;
      DigitsOfValue(p);
      assert ds == p + [d];
    }
  }

  predicate IsDigitChar(c: char)
  {
    '0' <= c <= '9'
  }

  predicate AllDigitChars(s: string)
  {
    forall i :: 0 <= i < |s| ==> IsDigitChar(s[i])
  }

  function CharValues(s: string): (ds: seq<nat>)
    requires AllDigitChars(s)
    ensures |ds| == |s| && IsDigitSeq(ds)
    ensures forall i :: 0 <= i < |s| ==> ds[i] == s[i] as int - '0' as int
  {
    seq(|s|, i requires 0 <= i < |s| && IsDigitChar(s[i]) => (s[i] as int - '0' as int) as nat)
  }

  /** The decimal form of `n` (`format!("{n}")`). */
  function ToString(n: nat): (s: string)
    ensures |s| == NumDigits(n)
    ensures forall i :: 0 <= i < |s| ==> IsDigitChar(s[i])
    ensures CharValues(s) == Digits(n)
  {
    var ds := Digits(n);
    seq(|ds|, i requires 0 <= i < |ds| => ('0' as int + ds[i]) as char)
  }

  /** `<uN as FromStr>::from_str`: an optional '+', then one or more decimal digits (leading
      zeros allowed), and nothing else; a value above `max` (the type's maximum) is an error. */
  function ParseUnsigned(s: string, max: nat): (r: Option<nat>)
    ensures r.Some? ==> r.value <= max
  {
    var body := if |s| > 0 && s[0] == '+' then s[1..] else s;
    match DecimalDigits(body)
    case None => None
    case Some(v) => if v <= max then Some(v) else None
  }

  /** The value of a non-empty string of decimal digits, read most significant first; `None`
      for the empty string or when some character is not a digit. */
  function DecimalDigits(s: string): Option<nat>
  {
    if |s| == 0 || !IsDigitChar(s[|s| - 1]) then None
    else
      var d := (s[|s| - 1] as int - '0' as int) as nat;
      if |s| == 1 then Some(d)
      else
        match DecimalDigits(s[..|s| - 1])
        case None => None
        case Some(v) => Some(v * 10 + d)
  }

  lemma {:induction false} DecimalDigitsMeaning(s: string)
    ensures DecimalDigits(s).Some? <==> |s| > 0 && AllDigitChars(s)
    ensures DecimalDigits(s).Some? ==> DecimalDigits(s).value == Value(CharValues(s))
  {
    if |s| > 1 {
      var p := s[..|s| - 1];
      DecimalDigitsMeaning(p);
      if AllDigitChars(s) {
        assert AllDigitChars(p) by {
          forall i | 0 <= i < |p| ensures IsDigitChar(p[i]) { assert p[i] == s[i]; }
        }
        assert CharValues(s)[..|s| - 1] == CharValues(p);
      }
      if IsDigitChar(s[|s| - 1]) && AllDigitChars(p) {
        assert AllDigitChars(s) by {
          forall i | 0 <= i < |s| ensures IsDigitChar(s[i]) {
            if i < |p| { assert s[i] == p[i]; }
          }
        }
      }
    }
  }

  /** A non-empty string of digits whose value is in range parses to that value. */
  lemma ParseDigitString(s: string, v: nat, max: nat)
    requires |s| > 0 && AllDigitChars(s) && Value(CharValues(s)) == v && v <= max
    ensures ParseUnsigned(s, max) == Some(v)
  {
    assert !IsDigitChar('+');
    DecimalDigitsMeaning(s);
  }

  /** What `ParseUnsigned` accepts, said the other way: the decimal form of any number within
      range is parsed back to that number. */
  lemma ParseToString(n: nat, max: nat)
    requires n <= max
    ensures ParseUnsigned(ToString(n), max) == Some(n)
  {
    ParseDigitString(ToString(n), n, max);
  }

  /** Zeros written in front of a number do not change its value. */
  lemma {:induction false} ZerosValue(zs: seq<nat>)
    requires forall i :: 0 <= i < |zs| ==> zs[i] == 0
    ensures Value(zs) == 0
    decreases |zs|
  {
    if |zs| > 0 {
      ZerosValue(zs[..|zs| - 1]);
    }
  }

  /** The decimal form of `n` behind any number of zeros parses to `n` when `n` is in range,
      and is refused when it is not: leading zeros are accepted and the range is checked. */
  lemma ParsePadded(zeros: string, n: nat, max: nat)
    requires forall i :: 0 <= i < |zeros| ==> zeros[i] == '0'
    ensures ParseUnsigned(zeros + ToString(n), max) == if n <= max then Some(n) else None
  {
    var s := zeros + ToString(n);
    assert AllDigitChars(s) by {
      assert AllDigitChars(zeros);
      AllDigitCharsAppend(zeros, ToString(n));
    }
    assert Value(CharValues(s)) == n by {
      CharValuesAppend(zeros, ToString(n));
      ZerosValue(CharValues(zeros));
      ValueAppend(CharValues(zeros), Digits(n));
    }
    assert DecimalDigits(s) == Some(n) by { DecimalDigitsMeaning(s); }
    assert s[0] != '+' by { assert IsDigitChar(s[0]); }
  }

  /** The decimal form of `n` parses to `n` exactly when `n` is within range. */
  lemma ParseInRange(n: nat, max: nat)
    ensures ParseUnsigned(ToString(n), max) == if n <= max then Some(n) else None
  {
    var s := ToString(n);
    ParsePadded("", n, max);
    assert "" + s == s;
  }

  /** Parsing the decimal form of `a` followed by that of `b` yields `a` shifted left by the
      number of digits of `b`, plus `b`: how `format!("{a}{b}").parse()` concatenates. */
  lemma ParseConcatenation(a: nat, b: nat, max: nat, shift: nat)
    requires shift == Pow10(NumDigits(b)) && a * shift + b <= max
    ensures ParseUnsigned(ToString(a) + ToString(b), max) == Some(a * shift + b)
  {
    var s := ToString(a) + ToString(b);
    assert |s| > 0 && AllDigitChars(s) && Value(CharValues(s)) == a * shift + b by {
      ConcatenatedValue(a, b, shift);
    }
    ParseDigitString(s, a * shift + b, max);
  }

  lemma ConcatenatedValue(a: nat, b: nat, shift: nat)
    requires shift == Pow10(NumDigits(b))
    ensures |ToString(a) + ToString(b)| > 0 && AllDigitChars(ToString(a) + ToString(b))
    ensures Value(CharValues(ToString(a) + ToString(b))) == a * shift + b
  {
    var sa, sb := ToString(a), ToString(b);
    AllDigitCharsAppend(sa, sb);
    CharValuesAppend(sa, sb);
    ValueAppend(Digits(a), Digits(b));
  }

  /** `collect::<Result<Vec<_>, _>>()` over `parse` of every word: all the values, in order,
      or `None` as soon as one word is not a number in range. */
  function ParseAll(words: seq<string>, max: nat): (r: Option<seq<nat>>)
    ensures r.Some? <==> forall k :: 0 <= k < |words| ==> ParseUnsigned(words[k], max).Some?
    ensures r.Some? ==> (|r.value| == |words|
                         && forall k :: 0 <= k < |words| ==>
                              ParseUnsigned(words[k], max) == Some(r.value[k]))
  {
    if words == [] then Some([])
    else
      match ParseUnsigned(words[0], max)
      case None => None
      case Some(n) =>
        match ParseAll(words[1..], max)
        case None => None
        case Some(rest) => Some([n] + rest)
  }

  /** The decimal form of each number. */
  function ToStrings(ns: seq<nat>): seq<string>
  {
    seq(|ns|, k requires 0 <= k < |ns| => ToString(ns[k]))
  }

  /** Numbers within range, written with single spaces, split on whitespace and parse back. */
  lemma ParseAllRoundTrip(ns: seq<nat>, max: nat)
    requires forall k :: 0 <= k < |ns| ==> ns[k] <= max
    ensures ParseAll(SplitWhitespace(Join(ToStrings(ns), ' ')), max) == Some(ns)
  {
    var words := ToStrings(ns);
    forall k | 0 <= k < |words| ensures IsWord(words[k]) {
      assert forall i :: 0 <= i < |words[k]| ==> IsDigitChar(words[k][i]);
    }
    SplitWhitespaceJoin(words);
    forall k | 0 <= k < |words| ensures ParseUnsigned(words[k], max) == Some(ns[k]) {
      ParseToString(ns[k], max);
    }
    var r := ParseAll(words, max);
    assert r.value == ns;
  }

  lemma AllDigitCharsAppend(a: string, b: string)
    requires AllDigitChars(a) && AllDigitChars(b)
    ensures AllDigitChars(a + b)
  {
    var s := a + b;
    forall i | 0 <= i < |s| ensures IsDigitChar(s[i]) {
      if i < |a| { assert s[i] == a[i]; } else { assert s[i] == b[i - |a|]; }
    }
  }

  lemma CharValuesAppend(a: string, b: string)
    requires AllDigitChars(a) && AllDigitChars(b) && AllDigitChars(a + b)
    ensures CharValues(a + b) == CharValues(a) + CharValues(b)
  {
  }

  predicate IsDigitByte(b: byte)
  {
    ZERO <= b <= NINE
  }

  /** Number of digit bytes at the front of `s`. */
  function DigitRun(s: seq<byte>): (n: nat)
    ensures n <= |s|
    ensures forall i :: 0 <= i < n ==> IsDigitByte(s[i])
    ensures n < |s| ==> !IsDigitByte(s[n])
  {
    if |s| == 0 || !IsDigitByte(s[0]) then 0 else 1 + DigitRun(s[1..])
  }

  function ByteValues(s: seq<byte>): (ds: seq<nat>)
    requires forall i :: 0 <= i < |s| ==> IsDigitByte(s[i])
    ensures |ds| == |s| && IsDigitSeq(ds)
  {
    seq(|s|, i requires 0 <= i < |s| && IsDigitByte(s[i]) => (s[i] - ZERO) as nat)
  }

  /** The `atoi` crate: an optional '+' or '-', then the longest run of decimal digits;
      whatever follows is ignored. Nothing read at all (no sign and no digit) is `None`, a
      sign with no digits after it reads as 0, and a value outside `lo..=hi` (the target
      type's range) is `None`. */
  function Atoi(s: seq<byte>, lo: int, hi: int): (r: Option<int>)
    ensures r.Some? ==> lo <= r.value <= hi
    ensures r.Some? ==> |s| > 0 && (IsDigitByte(s[0]) || s[0] == MINUS || s[0] == PLUS)
  {
    var negative := |s| > 0 && s[0] == MINUS;
    var start := if |s| > 0 && (s[0] == MINUS || s[0] == PLUS) then 1 else 0;
    var n := DigitRun(s[start..]);
    if start + n == 0 then None
    else
      var v: int := Value(ByteValues(s[start..][..n]));
      var signed: int := if negative then -v else v;
      if lo <= signed <= hi then Some(signed) else None
  }

  /** A sign with no digits after it, as in "L-" or "+-5", reads as 0. */
  lemma AtoiLoneSign(sign: byte, rest: seq<byte>, lo: int, hi: int)
    requires sign == MINUS || sign == PLUS
    requires lo <= 0 <= hi && (|rest| > 0 ==> !IsDigitByte(rest[0]))
    ensures Atoi([sign] + rest, lo, hi) == Some(0)
  {
    assert ([sign] + rest)[1..] == rest;
  }

  /** The decimal form of `n` as bytes. */
  function ToBytes(n: nat): (r: seq<byte>)
    ensures |r| >= 1 && forall i :: 0 <= i < |r| ==> IsDigitByte(r[i])
    ensures ByteValues(r) == Digits(n)
  {
    var ds := Digits(n);
    seq(|ds|, i requires 0 <= i < |ds| => (ZERO as int + ds[i]) as byte)
  }

  /** `atoi` reads back the decimal form of a number in range, whatever non-digit follows. */
  lemma AtoiToBytes(n: nat, rest: seq<byte>, lo: int, hi: int)
    requires lo <= n <= hi
    requires |rest| > 0 ==> !IsDigitByte(rest[0])
    ensures Atoi(ToBytes(n) + rest, lo, hi) == Some(n)
  {
    var s := ToBytes(n) + rest;
    assert DigitRun(s) == |ToBytes(n)| by { DigitRunPrefix(s, |ToBytes(n)|); }
    assert s[0..][..|ToBytes(n)|] == ToBytes(n);
  }

  lemma DigitRunPrefix(s: seq<byte>, n: nat)
    requires n <= |s|
    requires forall i :: 0 <= i < n ==> IsDigitByte(s[i])
    requires n < |s| ==> !IsDigitByte(s[n])
    ensures DigitRun(s) == n
  {
    var m := DigitRun(s);
    assert m < |s| ==> !IsDigitByte(s[m]);
  }
}
