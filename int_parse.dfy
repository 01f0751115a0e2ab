/** Decimal parsing of a signed 64-bit integer as the standard library's
    `i64::from_str` does it: an optional single `+` or `-`, then one or more
    ASCII digits (leading zeros allowed), and a value that fits in 64 bits.
    Anything else (the empty text, a lone sign, any other character, an
    overflow) is a parse error. */
module IntParse {
  import opened Model

  const MinI64: int := -0x8000_0000_0000_0000
  const MaxI64: int := 0x7FFF_FFFF_FFFF_FFFF

  predicate IsDigit(c: char) { '0' <= c <= '9' }

  predicate AllDigits(s: string) { forall i :: 0 <= i < |s| ==> IsDigit(s[i]) }

  /** The value of a digit string, read most significant digit first. */
  function DigitsValue(s: string): nat
    requires AllDigits(s)
  {
    if s == [] then 0
    else DigitsValue(s[..|s| - 1]) * 10 + (s[|s| - 1] as int - '0' as int)
  }

  /** The text of `i64::from_str` accepted as a number, with its value. */
  function ParseI64(s: string): (r: Option<int>)
    ensures r.Some? ==> MinI64 <= r.value <= MaxI64
    ensures r.Some? ==> |s| >= 1 && forall i :: 0 <= i < |s| ==> IsDigit(s[i]) || (i == 0 && s[0] in "+-")
    ensures r.Some? && s[0] in "+-" ==> |s| >= 2
    ensures r.Some? ==> (r.value < 0 ==> s[0] == '-')
  {
    if s == [] then None
    else
      var negative := s[0] == '-';
      var digits := if s[0] == '+' || s[0] == '-' then s[1..] else s;
      if digits == [] || !AllDigits(digits) then None
      else
        var v: int := if negative then 0 - DigitsValue(digits) as int else DigitsValue(digits) as int;
        if MinI64 <= v <= MaxI64 then Some(v) else None
  }

  function DigitChar(d: nat): char
    requires d < 10
  {
    (d + '0' as int) as char
  }

  /** The shortest decimal text of a natural number. */
  function NatText(n: nat): (s: string)
    ensures |s| >= 1 && AllDigits(s)
  {
    if n < 10 then [DigitChar(n)] else NatText(n / 10) + [DigitChar(n % 10)]
  }

  /** The decimal text `Display` gives a signed integer. */
  function IntText(v: int): string
  {
    if v < 0 then "-" + NatText(-v) else NatText(v)
  }

  lemma {:induction false} NatTextValue(n: nat)
    ensures DigitsValue(NatText(n)) == n
  {
    if n >= 10 {
      var s := NatText(n);
      NatTextValue(n / 10);
      assert s[..|s| - 1] == NatText(n / 10);
    }
  }

  /** Parsing undoes formatting for every 64-bit value. */
  lemma ParseIntText(v: int)
    requires MinI64 <= v <= MaxI64
    ensures ParseI64(IntText(v)) == Some(v)
  {
    var s := IntText(v);
    if v < 0 {
      var d := NatText(-v);
      assert s == "-" + d;
      assert s[0] == '-' && s[1..] == d;
      NatTextValue(-v);
    } else {
      assert s == NatText(v) && IsDigit(s[0]);
      NatTextValue(v);
    }
  }

  /** Leading zeros and a leading plus sign do not change the value. */
  lemma ParseIgnoresPlusAndZeros(s: string)
    requires |s| >= 1 && AllDigits(s)
    ensures ParseI64("+" + s) == ParseI64(s)
    ensures ParseI64("0" + s) == ParseI64(s)
  {
    assert ("+" + s)[1..] == s;
    LeadingZero(s);
  }

  lemma {:induction false} LeadingZero(s: string)
    requires AllDigits(s)
    ensures AllDigits("0" + s) && DigitsValue("0" + s) == DigitsValue(s)
  {
    if s != [] {
      var t := "0" + s;
      assert t[..|t| - 1] == "0" + s[..|s| - 1];
      LeadingZero(s[..|s| - 1]);
    }
  }
}
