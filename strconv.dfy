/** Go's base-10 integer formatting and parsing (`strconv.FormatInt`,
    `strconv.ParseInt(s, 10, 64)` and `strconv.Atoi`, which on a 64-bit
    platform behaves as `ParseInt(s, 10, 64)`), as the core uses them for
    cache keys, owner ids and request parameters. */
module Strconv {
  import opened Base

  predicate IsDigit(c: char) {
    '0' <= c <= '9'
  }

  predicate AllDigits(s: string) {
    forall i :: 0 <= i < |s| ==> IsDigit(s[i])
  }

  function DigitChar(d: int): (c: char)
    requires 0 <= d < 10
    ensures IsDigit(c)
  {
    (48 + d) as char
  }

  function DigitValue(c: char): (d: int)
    requires IsDigit(c)
    ensures 0 <= d < 10
  {
    c as int - 48
  }

  /** Decimal digits of a natural number, most significant first. */
  function NatDigits(n: nat): (s: string)
    ensures |s| >= 1 && AllDigits(s)
    decreases n
  {
    if n < 10 then [DigitChar(n)] else NatDigits(n / 10) + [DigitChar(n % 10)]
  }

  /** `strconv.FormatInt(n, 10)`: an optional minus sign and the digits of |n|. */
  function FormatInt(n: int): (s: string)
    ensures |s| >= 1
    ensures n < 0 <==> s[0] == '-'
  {
    if n < 0 then "-" + NatDigits(-n) else NatDigits(n)
  }

  /** The number a digit string denotes, read left to right. */
  function DigitsValue(s: string): nat
    requires AllDigits(s)
  {
    if s == [] then 0 else DigitsValue(s[..|s| - 1]) * 10 + DigitValue(s[|s| - 1])
  }

  lemma {:induction false} DigitsValueOfNatDigits(n: nat)
    ensures DigitsValue(NatDigits(n)) == n
    decreases n
  {
    if n >= 10 {
      var s := NatDigits(n);
      assert s[..|s| - 1] == NatDigits(n / 10);
      DigitsValueOfNatDigits(n / 10);
    }
  }

  lemma {:induction false} DigitsValuePrefix(s: string, i: nat)
    requires AllDigits(s) && i <= |s|
    ensures DigitsValue(s[..i]) <= DigitsValue(s)
    decreases |s|
  {
    if i < |s| {
      var t := s[..|s| - 1];
      assert t[..i] == s[..i];
      DigitsValuePrefix(t, i);
    } else {
      assert s[..i] == s;
    }
  }

  datatype NumError = NoError | ErrSyntax | ErrRange

  /** The `(value, err)` pair Go's parsers return. */
  datatype Parsed = Parsed(value: int, err: NumError)

  /** The digit loop of `strconv.ParseUint(s, 10, 64)` from position `i` with
      accumulated value `n`: a non-digit is a syntax error, and a value past
      the uint64 range stops the loop at once with a range error. */
  function ParseUintFrom(s: string, i: nat, n: nat): (r: Parsed)
    requires i <= |s|
    ensures 0 <= r.value <= MaxUint64 || (i == |s| && r.value == n)
    ensures r.err == NoError ==> r.value >= n
    decreases |s| - i
  {
    if i == |s| then Parsed(n, NoError)
    else if !IsDigit(s[i]) then Parsed(0, ErrSyntax)
    else if n * 10 + DigitValue(s[i]) > MaxUint64 then Parsed(MaxUint64, ErrRange)
    else ParseUintFrom(s, i + 1, n * 10 + DigitValue(s[i]))
  }

  lemma {:induction false} ParseUintFromDigits(s: string, i: nat)
    requires AllDigits(s) && i <= |s| && DigitsValue(s) <= MaxUint64
    ensures ParseUintFrom(s, i, DigitsValue(s[..i])) == Parsed(DigitsValue(s), NoError)
    decreases |s| - i
  {
    if i == |s| {
      assert s[..i] == s;
    } else {
      var p := s[..i + 1];
      assert p[..|p| - 1] == s[..i];
      DigitsValuePrefix(s, i + 1);
      ParseUintFromDigits(s, i + 1);
    }
  }

  /** `strconv.ParseUint(s, 10, 64)`. */
  function ParseUint(s: string): (r: Parsed)
    ensures 0 <= r.value <= MaxUint64
  {
    if s == "" then Parsed(0, ErrSyntax) else ParseUintFrom(s, 0, 0)
  }

  /** `strconv.ParseInt(s, 10, 64)`: an optional sign, then ParseUint on the
      rest; out-of-range values saturate at the int64 bounds with ErrRange,
      and a syntax error yields 0. */
  function ParseInt(s: string): (r: Parsed)
    ensures r.err == NoError ==> IsInt64(r.value)
    ensures r.err == ErrSyntax ==> r.value == 0
    ensures r.err == ErrRange ==> r.value == MaxInt64 || r.value == MinInt64
    ensures s == "" ==> r.err == ErrSyntax
  {
    if s == "" then Parsed(0, ErrSyntax)
    else
      var neg := s[0] == '-';
      var u := ParseUint(if s[0] == '+' || s[0] == '-' then s[1..] else s);
      if u.err == ErrSyntax then Parsed(0, ErrSyntax)
      else if !neg && (u.err == ErrRange || u.value > MaxInt64) then Parsed(MaxInt64, ErrRange)
      else if neg && (u.err == ErrRange || u.value > -MinInt64) then Parsed(MinInt64, ErrRange)
      else if neg then Parsed(-u.value, NoError)
      else Parsed(u.value, NoError)
  }

  /** ParseUint reads back the digits of any natural number in range. */
  lemma ParseUintOfNatDigits(m: nat)
    requires m <= MaxUint64
    ensures ParseUint(NatDigits(m)) == Parsed(m, NoError)
  {
    var d := NatDigits(m);
    DigitsValueOfNatDigits(m);
    assert d[..0] == [];
    ParseUintFromDigits(d, 0);
  }

  /** Parsing what FormatInt printed gives the number back, for every int64. */
  lemma {:induction false} ParseFormatRoundTrip(n: int)
    requires IsInt64(n)
    ensures ParseInt(FormatInt(n)) == Parsed(n, NoError)
  {
    var s := FormatInt(n);
    if n < 0 {
      ParseUintOfNatDigits(-n);
      assert s[0] == '-' && s[1..] == NatDigits(-n);
    } else {
      ParseUintOfNatDigits(n);
      assert s == NatDigits(n) && IsDigit(s[0]);
    }
  }

  /** Distinct int64 values print differently: a key built from FormatInt
      identifies its number. */
  lemma FormatIntInjective(a: int, b: int)
    requires IsInt64(a) && IsInt64(b) && FormatInt(a) == FormatInt(b)
    ensures a == b
  {
    ParseFormatRoundTrip(a);
    ParseFormatRoundTrip(b);
  }
}
