/** The string operations the program borrows from Rust's standard library:
    `str::split` on a one-character separator, decimal formatting of integers
    (`{}`) and left padding with zeros (`{:0>6}`). */
module Text {

  /** Number of occurrences of `c` in `s`. */
  function Count(s: string, c: char): nat
  {
    if s == [] then 0 else (if s[0] == c then 1 else 0) + Count(s[1..], c)
  }

  /** The parts put back together with `sep` between neighbours. */
  function Join(parts: seq<string>, sep: char): string
    requires |parts| > 0
  {
    if |parts| == 1 then parts[0] else parts[0] + [sep] + Join(parts[1..], sep)
  }

  /** `s.split(sep)`: always at least one part; a separator at either end, or
      two in a row, yields an empty part. */
  function Split(s: string, sep: char): (parts: seq<string>)
    ensures |parts| == Count(s, sep) + 1
    ensures forall k :: 0 <= k < |parts| ==> sep !in parts[k]
    ensures Join(parts, sep) == s
    decreases |s|
  {
    if s == [] then [[]]
    else
      var rest := Split(s[1..], sep);
      if s[0] == sep then
        assert ([[]] + rest)[1..] == rest;
        [[]] + rest
      else
        var parts := [[s[0]] + rest[0]] + rest[1..];
        assert parts[1..] == rest[1..];
        assert |rest| > 1 ==> Join(rest, sep) == rest[0] + [sep] + Join(rest[1..], sep);
        parts
  }

  /** Splitting a string that ends in the separator gives one more, empty, part. */
  lemma {:induction false} SplitTrailingSeparator(s: string, sep: char)
    ensures Split(s + [sep], sep) == Split(s, sep) + [[]]
    decreases |s|
  {
    if s == [] {
      assert [sep][1..] == [];
    } else {
      assert (s + [sep])[1..] == s[1..] + [sep];
      SplitTrailingSeparator(s[1..], sep);
    }
  }

  predicate IsDigit(c: char)
  {
    '0' <= c <= '9'
  }

  predicate AllDigits(s: string)
  {
    forall k :: 0 <= k < |s| ==> IsDigit(s[k])
  }

  function DigitValue(c: char): nat
    requires IsDigit(c)
  {
    (c as int) - ('0' as int)
  }

  function DigitChar(d: nat): (c: char)
    requires d < 10
    ensures IsDigit(c) && DigitValue(c) == d
  {
    (('0' as int) + d) as char
  }

  /** The value of a string of decimal digits, most significant first. */
  function Decimal(s: string): nat
    requires AllDigits(s)
  {
    if s == [] then 0 else 10 * Decimal(s[..|s| - 1]) + DigitValue(s[|s| - 1])
  }

  function Pow10(m: nat): (p: nat)
    ensures p >= 1
  {
    if m == 0 then 1 else 10 * Pow10(m - 1)
  }

  /** `format!("{}", n)` for an unsigned integer: the shortest decimal digits. */
  function NatToString(n: nat): (s: string)
    ensures |s| > 0 && AllDigits(s)
    ensures Decimal(s) == n
    ensures |s| > 1 ==> s[0] != '0'
  {
    if n < 10 then [DigitChar(n)]
    else
      var s := NatToString(n / 10) + [DigitChar(n % 10)];
      assert s[..|s| - 1] == NatToString(n / 10);
      s
  }

  /** The decimal digits of `n` number at most `m` exactly when `n < 10^m`. */
  lemma {:induction false} NatToStringLength(n: nat, m: nat)
    requires m >= 1
    ensures |NatToString(n)| <= m <==> n < Pow10(m)
    decreases m
  {
    if n >= 10 {
      if m > 1 {
        NatToStringLength(n / 10, m - 1);
        assert n / 10 < Pow10(m - 1) <==> n < Pow10(m);
      }
    }
  }

  /** `format!("{}", i)` for a signed integer: a minus sign for negatives. */
  function IntToString(i: int): (s: string)
    ensures |s| > 0
    ensures forall k :: 0 <= k < |s| ==> s[k] == '-' || IsDigit(s[k])
    ensures i < 0 <==> s[0] == '-'
    ensures forall k :: 1 <= k < |s| ==> IsDigit(s[k])
    ensures var d := s[if i < 0 then 1 else 0..]; AllDigits(d) && Decimal(d) == (if i < 0 then -i else i)
  {
    if i < 0 then
      var s := "-" + NatToString(-i);
      assert s[1..] == NatToString(-i);
      s
    else NatToString(i)
  }

  /** Distinct integers are printed differently. */
  lemma IntToStringInjective(i: int, j: int)
    requires IntToString(i) == IntToString(j)
    ensures i == j
  {
    if i < 0 {
      assert IntToString(i)[1..] == NatToString(-i);
      assert IntToString(j)[1..] == NatToString(-j);
    }
  }

  /** `format!("{:0>w}", s)`: pad on the left with `'0'` up to width `w`;
      never truncates. */
  function ZeroPad(s: string, w: nat): (r: string)
    ensures |r| == if |s| >= w then |s| else w
    ensures r[|r| - |s|..] == s
    ensures forall k :: 0 <= k < |r| - |s| ==> r[k] == '0'
  {
    if |s| >= w then s else Zeros(w - |s|) + s
  }

  function Zeros(z: nat): (r: string)
    ensures |r| == z
    ensures forall k :: 0 <= k < z ==> r[k] == '0'
  {
    if z == 0 then [] else ['0'] + Zeros(z - 1)
  }

  lemma {:induction false} DecimalZeroPrefix(s: string)
    requires AllDigits(s)
    ensures AllDigits(['0'] + s) && Decimal(['0'] + s) == Decimal(s)
    decreases |s|
  {
    if s != [] {
      assert (['0'] + s)[..|s|] == ['0'] + s[..|s| - 1];
      DecimalZeroPrefix(s[..|s| - 1]);
    }
  }

  lemma {:induction false} DecimalZerosPrefix(z: nat, s: string)
    requires AllDigits(s)
    ensures AllDigits(Zeros(z) + s) && Decimal(Zeros(z) + s) == Decimal(s)
    decreases z
  {
    if z > 0 {
      DecimalZerosPrefix(z - 1, s);
      ZerosUnfold(z, s);
      DecimalZeroPrefix(Zeros(z - 1) + s);
    } else {
      assert Zeros(z) + s == s;
    }
  }

  lemma ZerosUnfold(z: nat, s: string)
    requires z > 0
    ensures Zeros(z) + s == ['0'] + (Zeros(z - 1) + s)
  {
    assert Zeros(z) == ['0'] + Zeros(z - 1);
  }

  /** Zero padding keeps the digits' value, so padded numbers stay distinct. */
  lemma ZeroPadDecimal(n: nat, w: nat)
    ensures AllDigits(ZeroPad(NatToString(n), w))
    ensures Decimal(ZeroPad(NatToString(n), w)) == n
  {
    var s := NatToString(n);
    if |s| < w {
      DecimalZerosPrefix(w - |s|, s);
    }
  }

  /** Cancels a common prefix `a + [c]` when `c` occurs in neither head. */
  lemma SplitAt(a1: string, b1: string, a2: string, b2: string, c: char)
    requires c !in a1 && c !in a2
    requires a1 + [c] + b1 == a2 + [c] + b2
    ensures a1 == a2 && b1 == b2
  {
    var s := a1 + [c] + b1;
    assert s[|a1|] == c && forall k :: 0 <= k < |a1| ==> s[k] == a1[k];
    assert s[|a2|] == c && forall k :: 0 <= k < |a2| ==> s[k] == a2[k];
    assert a1 == s[..|a1|] == a2;
    assert b1 == s[|a1| + 1..] == b2;
  }

  /** The first and last parts of a three-part concatenation, either way
      round. */
  lemma ConcatEnds(a: string, b: string, c: string)
    ensures |a + (b + c)| == |a| + |b| + |c| && (a + (b + c))[..|a|] == a && (a + (b + c))[|a| + |b|..] == c
    ensures (a + b + c)[..|a|] == a && (a + b + c)[|a| + |b|..] == c
    ensures (a + b + c)[|a|..|a| + |b|] == b
  {
  }
}
