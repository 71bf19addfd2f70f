/** The three `str::parse` instantiations the trace reader uses: `u32` for the
    timestamp, `i32` for the nine status fields and `f64` for latitude and
    longitude. Integer parsing follows Rust's `from_str_radix` for radix 10;
    for `f64` only the question "is this a float literal?" matters here,
    because the parsed value is kept as its text. */
module Fields {
  import opened Wrappers
  import opened Text

  const U32_MAX := 0xFFFF_FFFF
  const I32_MIN := -0x8000_0000
  const I32_MAX := 0x7FFF_FFFF

  type U32 = n: int | 0 <= n <= U32_MAX
  type I32 = n: int | I32_MIN <= n <= I32_MAX

  /** `s.parse::<u32>()`: an optional leading `+` (not alone), then one or more
      decimal digits whose value fits in 32 bits. A leading `-` is rejected. */
  function ParseU32(s: string): (r: Option<U32>)
    ensures r.Some? ==> s != [] && s != "+" && forall k :: 0 <= k < |s| ==> IsDigit(s[k]) || (k == 0 && s[k] == '+')
  {
    var digits := if |s| > 1 && s[0] == '+' then s[1..] else s;
    if digits != [] && AllDigits(digits) && Decimal(digits) <= U32_MAX then Some(Decimal(digits))
    else None
  }

  /** `s.parse::<i32>()`: an optional sign (not alone), then one or more decimal
      digits whose signed value fits in 32 bits. */
  function ParseI32(s: string): (r: Option<I32>)
    ensures r.Some? ==> s != [] && s != "+" && s != "-"
    ensures r.Some? ==> forall k :: 0 <= k < |s| ==> IsDigit(s[k]) || (k == 0 && (s[k] == '+' || s[k] == '-'))
    ensures r.Some? && r.value < 0 ==> s[0] == '-'
  {
    if |s| > 1 && s[0] == '-' then
      var digits := s[1..];
      if AllDigits(digits) && Decimal(digits) <= -I32_MIN then Some(-(Decimal(digits) as int)) else None
    else
      var digits := if |s| > 1 && s[0] == '+' then s[1..] else s;
      if digits != [] && AllDigits(digits) && Decimal(digits) <= I32_MAX then Some(Decimal(digits))
      else None
  }

  /** Every `u32` reads back from its decimal form. */
  lemma ParseU32RoundTrip(n: U32)
    ensures ParseU32(NatToString(n)) == Some(n)
  {
    var s := NatToString(n);
    assert |s| > 1 ==> s[0] != '+' by {
      if |s| > 1 { assert IsDigit(s[0]); }
    }
  }

  /** Every `i32` reads back from its decimal form. */
  lemma ParseI32RoundTrip(i: I32)
    ensures ParseI32(IntToString(i)) == Some(i)
  {
    var s := IntToString(i);
    if i < 0 {
      assert s[1..] == NatToString(-(i as int));
    } else {
      assert IsDigit(s[0]);
    }
  }

  /** A negative number is never a `u32`, and 2^32 is one too many. */
  lemma ParseU32Rejects(n: nat)
    ensures ParseU32("-" + NatToString(n)) == None
    ensures n > U32_MAX ==> ParseU32(NatToString(n)) == None
  {
    var s := "-" + NatToString(n);
    assert !IsDigit(s[0]);
    var t := NatToString(n);
    assert |t| > 1 ==> t[0] != '+' by {
      if |t| > 1 { assert IsDigit(t[0]); }
    }
  }

  function ToLowerAscii(c: char): char
  {
    if 'A' <= c <= 'Z' then ((c as int) + 32) as char else c
  }

  function LowerAscii(s: string): (r: string)
    ensures |r| == |s|
  {
    seq(|s|, k requires 0 <= k < |s| => ToLowerAscii(s[k]))
  }

  /** Index of the first `c` (or `d`) in `s`, or `|s|` when there is none. */
  function IndexOf(s: string, c: char, d: char): (i: nat)
    ensures i <= |s|
    ensures forall k :: 0 <= k < i ==> s[k] != c && s[k] != d
    ensures i < |s| ==> s[i] == c || s[i] == d
  {
    if s == [] then 0
    else if s[0] == c || s[0] == d then 0
    else 1 + IndexOf(s[1..], c, d)
  }

  /** Digits with at most one `.`, at least one digit in all. */
  predicate IsMantissa(m: string)
  {
    var dot := IndexOf(m, '.', '.');
    && AllDigits(m[..dot])
    && (dot < |m| ==> AllDigits(m[dot + 1..]))
    && (if dot < |m| then |m| - 1 else |m|) > 0
  }

  /** An optional sign and one or more digits. */
  predicate IsExponent(x: string)
  {
    var digits := if |x| > 0 && (x[0] == '+' || x[0] == '-') then x[1..] else x;
    digits != [] && AllDigits(digits)
  }

  /** A decimal number: a mantissa and an optional `e`/`E` exponent. */
  predicate IsDecimalNumber(b: string)
  {
    var e := IndexOf(b, 'e', 'E');
    IsMantissa(b[..e]) && (e < |b| ==> IsExponent(b[e + 1..]))
  }

  /** The strings `s.parse::<f64>()` accepts: an optional sign, then either a
      decimal number or, in any letter case, `inf`, `infinity` or `nan`. */
  predicate IsFloatLiteral(s: string)
    ensures IsFloatLiteral(s) ==> s != [] && s != "+" && s != "-"
  {
    var body := if |s| > 0 && (s[0] == '+' || s[0] == '-') then s[1..] else s;
    var lower := LowerAscii(body);
    body != [] && (lower == "inf" || lower == "infinity" || lower == "nan" || IsDecimalNumber(body))
  }

  /** Any non-empty string of digits is a float literal, and so is the text
      of any integer. */
  lemma IntegerIsFloatLiteral(i: int)
    ensures IsFloatLiteral(IntToString(i))
  {
    var s := IntToString(i);
    var body := if s[0] == '-' then s[1..] else s;
    assert body == NatToString(if i < 0 then -i else i);
    assert IndexOf(body, 'e', 'E') == |body| by {
      IndexOfAbsent(body, 'e', 'E');
    }
    assert IndexOf(body, '.', '.') == |body| by {
      IndexOfAbsent(body, '.', '.');
    }
    assert body[..|body|] == body;
  }

  lemma IndexOfAbsent(s: string, c: char, d: char)
    requires AllDigits(s) && !IsDigit(c) && !IsDigit(d)
    ensures IndexOf(s, c, d) == |s|
  {
    if s != [] {
      assert AllDigits(s[1..]);
      IndexOfAbsent(s[1..], c, d);
    }
  }
}
