/** Go's strconv.ParseInt(s, 10, 64), which the handlers use on path and query
    parameters, and the decimal rendering of an integer that the client puts
    into a URL (`?user_id=${userId}`). */
module StrConv {
  import opened Wrappers

  const MinInt64: int := -0x8000_0000_0000_0000
  const MaxInt64: int := 0x7FFF_FFFF_FFFF_FFFF

  predicate IsInt64(n: int) {
    MinInt64 <= n <= MaxInt64
  }

  predicate IsDigit(c: char) {
    '0' <= c <= '9'
  }

  predicate AllDigits(s: string) {
    forall i :: 0 <= i < |s| ==> IsDigit(s[i])
  }

  /** The value of a run of decimal digits, most significant first (leading zeros allowed). */
  function DigitsValue(s: string): nat
    requires AllDigits(s)
  {
    if s == [] then 0 else DigitsValue(s[..|s| - 1]) * 10 + (s[|s| - 1] as int - '0' as int)
  }

  /** The digits after the optional sign. */
  function Unsigned(s: string): string
    requires s != []
  {
    if s[0] == '+' || s[0] == '-' then s[1..] else s
  }

  /** strconv.ParseInt(s, 10, 64): an optional '+' or '-', then at least one
      decimal digit and nothing else (base 10 admits no underscores and no
      prefix); a value outside int64 is a range error. Both kinds of error are
      None, because every handler answers them the same way. */
  function ParseInt(s: string): (r: Option<int>)
    ensures r.Some? ==> IsInt64(r.value)
    ensures r.Some? ==> s != [] && Unsigned(s) != [] && AllDigits(Unsigned(s))
  {
    if s == [] then None
    else
      var digits := Unsigned(s);
      if digits == [] || !AllDigits(digits) then None
      else
        var v := if s[0] == '-' then -(DigitsValue(digits) as int) else DigitsValue(digits);
        if IsInt64(v) then Some(v) else None
  }

  function DigitChar(d: nat): (c: char)
    requires d < 10
    ensures IsDigit(c) && c as int - '0' as int == d
  {
    ('0' as int + d) as char
  }

  /** Decimal digits of a natural number, without leading zeros. */
  function FormatNat(n: nat): string
  {
    if n < 10 then [DigitChar(n)] else FormatNat(n / 10) + [DigitChar(n % 10)]
  }

  /** The decimal text of an integer, with a '-' for negatives and no '+'. */
  function FormatInt(n: int): (r: string)
    ensures r != [] && r[0] != '+' && (r[0] == '-' <==> n < 0)
  {
    FormatNatDigits(if n < 0 then -n else n);
    if n < 0 then "-" + FormatNat(-n) else FormatNat(n)
  }

  lemma {:induction false} FormatNatDigits(n: nat)
    ensures FormatNat(n) != [] && FormatNat(n)[0] != '+' && FormatNat(n)[0] != '-'
    ensures AllDigits(FormatNat(n)) && DigitsValue(FormatNat(n)) == n
  {
    if n >= 10 {
      FormatNatDigits(n / 10);
      var s := FormatNat(n);
      assert s[..|s| - 1] == FormatNat(n / 10);
    }
  }

  /** Every int64 rendered in decimal parses back to itself. */
  lemma ParseFormatRoundTrip(n: int)
    requires IsInt64(n)
    ensures ParseInt(FormatInt(n)) == Some(n)
  {
    if n < 0 {
      FormatNatDigits(-n);
      assert Unsigned(FormatInt(n)) == FormatNat(-n);
    } else {
      FormatNatDigits(n);
    }
  }

  /** A sign is optional: '+' changes nothing, '-' negates, as long as the
      result stays within int64. */
  lemma ParseIntSign(t: string)
    requires t != [] && IsDigit(t[0]) && ParseInt(t).Some?
    ensures ParseInt("+" + t) == ParseInt(t)
    ensures IsInt64(-ParseInt(t).value) ==> ParseInt("-" + t) == Some(-ParseInt(t).value)
  {
    assert Unsigned("+" + t) == t;
    assert Unsigned("-" + t) == t;
  }

  /** A missing query parameter reads as the empty string, which never parses. */
  lemma EmptyDoesNotParse()
    ensures ParseInt("") == None
  {
  }

  /** A character other than a digit anywhere except as the leading sign
      (white space on either side, a base prefix such as "0x", an underscore)
      makes the text fail. */
  lemma NonDigitDoesNotParse(s: string, i: nat)
    requires i < |s| && !IsDigit(s[i]) && (i > 0 || (s[0] != '+' && s[0] != '-'))
    ensures ParseInt(s) == None
  {
    if s[0] == '+' || s[0] == '-' {
      assert Unsigned(s)[i - 1] == s[i];
    } else {
      assert Unsigned(s)[i] == s[i];
    }
  }

  /** A decimal numeral outside int64 is a range error. */
  lemma OutOfRangeDoesNotParse(n: int)
    requires !IsInt64(n)
    ensures ParseInt(FormatInt(n)) == None
  {
    if n < 0 {
      FormatNatDigits(-n);
      assert Unsigned(FormatInt(n)) == FormatNat(-n);
    } else {
      FormatNatDigits(n);
    }
  }
}
