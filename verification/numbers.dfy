/** The integer widths of the value kinds and the digit parser that stands in
    for `Convert.ChangeType(word, typeof(int))` and `long.TryParse`. */
module Numbers {
  import opened Wrappers
  import opened Strings

  const INT32_MIN: int := -0x8000_0000
  const INT32_MAX: int := 0x7FFF_FFFF
  const INT64_MIN: int := -0x8000_0000_0000_0000
  const INT64_MAX: int := 0x7FFF_FFFF_FFFF_FFFF

  type Int32 = x: int | INT32_MIN <= x <= INT32_MAX
  type Int64 = x: int | INT64_MIN <= x <= INT64_MAX

  predicate AllDigits(s: string) {
    forall i :: 0 <= i < |s| ==> IsDigit(s[i])
  }

  function DigitsValue(s: string): nat
    requires AllDigits(s)
  {
    if |s| == 0 then 0 else DigitsValue(s[..|s| - 1]) * 10 + (s[|s| - 1] as int - '0' as int)
  }

  /** Integer syntax of `NumberStyles.Integer` in the invariant culture:
      surrounding white space, an optional leading sign, at least one digit.
      The value is not range-checked here. */
  function ParseIntegerText(s: string): (r: Option<int>)
    ensures r.Some? ==> |Trim(s)| > 0 && (IsDigit(Trim(s)[0]) || Trim(s)[0] == '-' || Trim(s)[0] == '+')
  {
    var t := Trim(s);
    if |t| == 0 then None
    else
      var body := if t[0] == '-' || t[0] == '+' then t[1..] else t;
      if |body| == 0 || !AllDigits(body) then None
      else Some(if t[0] == '-' then 0 - (DigitsValue(body) as int) else DigitsValue(body))
  }

  /** `TryParse`: a value outside `lo..hi` is an overflow and does not parse. */
  function ParseInteger(s: string, lo: int, hi: int): (r: Option<int>)
    ensures r.Some? ==> lo <= r.value <= hi
    ensures r.Some? ==> ParseIntegerText(s) == r
    ensures r.None? ==> ParseIntegerText(s).None? || !(lo <= ParseIntegerText(s).value <= hi)
  {
    var v := ParseIntegerText(s);
    if v.Some? && lo <= v.value <= hi then v else None
  }

  function ParseInt32(s: string): Option<int> { ParseInteger(s, INT32_MIN, INT32_MAX) }

  function ParseInt64(s: string): Option<int> { ParseInteger(s, INT64_MIN, INT64_MAX) }

  lemma {:induction false} DigitsOfNat(n: nat)
    ensures AllDigits(NatToString(n)) && DigitsValue(NatToString(n)) == n
  {
    if n >= 10 {
      DigitsOfNat(n / 10);
      var p := NatToString(n / 10);
      var s := NatToString(n);
      assert s == p + [('0' as int + n % 10) as char];
      assert s[..|s| - 1] == p;
    }
  }

  lemma ParseNonNegative(n: int, lo: int, hi: int)
    requires 0 <= n && lo <= n <= hi
    ensures ParseInteger(IntToString(n), lo, hi) == Some(n)
  {
    var d := NatToString(n);
    assert IntToString(n) == d;
    DigitsOfNat(n);
    TrimmedIsSelf(d);
    assert IsDigit(d[0]);
  }

  lemma ParseNegative(n: int, lo: int, hi: int)
    requires n < 0 && lo <= n <= hi
    ensures ParseInteger(IntToString(n), lo, hi) == Some(n)
  {
    var m: nat := -n;
    var d := NatToString(m);
    DigitsOfNat(m);
    var s := "-" + d;
    assert IntToString(n) == s;
    TrimmedIsSelf(s);
    assert s[0] == '-' && s[1..] == d;
  }

  /** Printing an in-range integer and parsing it back gives the integer. */
  lemma FormatParseRoundTrip(n: int, lo: int, hi: int)
    requires lo <= n <= hi
    ensures ParseInteger(IntToString(n), lo, hi) == Some(n)
  {
    if n < 0 {
      ParseNegative(n, lo, hi);
    } else {
      ParseNonNegative(n, lo, hi);
    }
  }

  lemma TrimmedIsSelf(s: string)
    requires |s| > 0 && !IsWhiteSpace(s[0]) && !IsWhiteSpace(s[|s| - 1])
    ensures Trim(s) == s
  {
    assert TrimStart(s) == s;
    assert TrimEnd(s) == s;
  }

  /** A word without digits never parses, so `IntegerTokenType` treats it as a
      non-match rather than an error. */
  lemma NoDigitsNoNumber(s: string, lo: int, hi: int)
    requires forall i :: 0 <= i < |s| ==> !IsDigit(s[i])
    ensures ParseInteger(s, lo, hi) == None
  {
    var t := Trim(s);
    TrimChars(s);
    if |t| > 1 {
      assert t[1] in s;
    }
  }
}
