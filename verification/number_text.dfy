/**
 * The text-to-number conversion the admin form applies to its capacity box:
 * `parseInt(value) || 0`.  `parseInt` is modelled as a decimal parser: it skips
 * leading white space, accepts one optional sign, and reads the longest run of
 * decimal digits; with no digit it yields NaN, which `|| 0` turns into 0.
 * `Show` is the decimal rendering a number box displays, and the round trip
 * `ParseInt(Show(n)) == Some(n)` ties the two together.
 */
module NumberText {
  import opened Wrappers

  predicate IsDigit(c: char) {
    '0' <= c <= '9'
  }

  /** The ASCII white-space characters `parseInt` skips before the number. */
  predicate IsSpace(c: char) {
    c == ' ' || c == '\t' || c == '\n' || c == '\r' || c == '\U{B}' || c == '\U{C}'
  }

  predicate AllDigits(s: string) {
    forall i | 0 <= i < |s| :: IsDigit(s[i])
  }

  function DigitValue(c: char): (n: nat)
    requires IsDigit(c)
    ensures n < 10
  {
    c as int - '0' as int
  }

  function DigitChar(n: nat): (c: char)
    requires n < 10
    ensures IsDigit(c) && DigitValue(c) == n
  {
    ('0' as int + n) as char
  }

  /** The number a run of decimal digits denotes, most significant digit first. */
  function DigitsValue(d: string): nat
    requires AllDigits(d)
  {
    if d == [] then 0 else DigitsValue(d[..|d| - 1]) * 10 + DigitValue(d[|d| - 1])
  }

  /** The longest prefix of `s` made of decimal digits. */
  function DigitPrefix(s: string): (d: string)
    ensures d <= s
    ensures AllDigits(d)
    ensures |d| < |s| ==> !IsDigit(s[|d|])
  {
    if s != [] && IsDigit(s[0]) then [s[0]] + DigitPrefix(s[1..]) else []
  }

  /** `s` without its leading white space. */
  function TrimStart(s: string): (t: string)
    ensures |t| <= |s| && t == s[|s| - |t|..]
    ensures forall i | 0 <= i < |s| - |t| :: IsSpace(s[i])
    ensures t == [] || !IsSpace(t[0])
  {
    if s != [] && IsSpace(s[0]) then TrimStart(s[1..]) else s
  }

  /** The number a digit run at the head of `s` denotes; `None` when `s` does not start with a digit. */
  function ParseDigits(s: string): (r: Option<int>)
    ensures r.Some? ==> r.value >= 0
  {
    var d := DigitPrefix(s);
    if d == [] then None else Some(DigitsValue(d))
  }

  /** The sign handling of `parseInt`, once white space is gone. */
  function ParseSigned(t: string): Option<int>
  {
    if t != [] && t[0] == '-' then
      match ParseDigits(t[1..])
      case None => None
      case Some(v) => Some(-v)
    else if t != [] && t[0] == '+' then ParseDigits(t[1..])
    else ParseDigits(t)
  }

  /** `parseInt(s)` in base ten; `None` stands for NaN. */
  function ParseInt(s: string): Option<int>
  {
    ParseSigned(TrimStart(s))
  }

  /** `parseInt(s) || 0`: NaN (and zero) become 0, every other result is kept. */
  function IntOrZero(s: string): (n: int)
    ensures ParseInt(s).None? ==> n == 0
    ensures ParseInt(s).Some? ==> n == ParseInt(s).value
  {
    match ParseInt(s)
    case None => 0
    case Some(v) => v
  }

  /** Decimal digits of a natural number, without leading zeros. */
  function ShowNat(n: nat): (d: string)
    ensures |d| > 0 && AllDigits(d)
    ensures d[0] == '0' ==> n == 0
  {
    if n < 10 then [DigitChar(n)] else ShowNat(n / 10) + [DigitChar(n % 10)]
  }

  /** The decimal text of an integer, as a number box displays it. */
  function Show(n: int): (s: string)
    ensures |s| > 0
    ensures s[0] == '-' <==> n < 0
  {
    if n < 0 then "-" + ShowNat(-n) else ShowNat(n)
  }

  lemma {:induction false} DigitsValueOfShowNat(n: nat)
    ensures DigitsValue(ShowNat(n)) == n
  {
    if n >= 10 {
      var d := ShowNat(n);
      assert d[..|d| - 1] == ShowNat(n / 10);
      DigitsValueOfShowNat(n / 10);
    }
  }

  lemma {:induction false} DigitPrefixOfDigits(d: string, rest: string)
    requires AllDigits(d)
    requires rest == [] || !IsDigit(rest[0])
    ensures DigitPrefix(d + rest) == d
  {
    if d != [] {
      assert (d + rest)[1..] == d[1..] + rest;
      DigitPrefixOfDigits(d[1..], rest);
    }
  }

  lemma ParseDigitsOfShowNat(m: nat, rest: string)
    requires rest == [] || !IsDigit(rest[0])
    ensures ParseDigits(ShowNat(m) + rest) == Some(m)
  {
    DigitsValueOfShowNat(m);
    DigitPrefixOfDigits(ShowNat(m), rest);
  }

  /** Text that starts with a digit is parsed as a plain digit run. */
  lemma ParseLeadingDigit(t: string)
    requires t != [] && IsDigit(t[0])
    ensures ParseInt(t) == ParseDigits(t)
  {
    assert TrimStart(t) == t;
  }

  /** Text that starts with a minus sign is parsed as the negated digit run after it. */
  lemma ParseLeadingMinus(t: string, v: nat)
    requires t != [] && t[0] == '-'
    requires ParseDigits(t[1..]) == Some(v)
    ensures ParseInt(t) == Some(0 - v as int)
  {
    assert TrimStart(t) == t;
    assert ParseSigned(t) == Some(0 - v as int);
  }

  lemma ParseShowNat(m: nat, rest: string)
    requires rest == [] || !IsDigit(rest[0])
    ensures ParseInt(ShowNat(m) + rest) == Some(m)
  {
    var d := ShowNat(m);
    ParseDigitsOfShowNat(m, rest);
    assert IsDigit(d[0]);
    assert (d + rest)[0] == d[0];
    ParseLeadingDigit(d + rest);
  }

  lemma ParseShowNegative(m: nat, rest: string)
    requires m > 0
    requires rest == [] || !IsDigit(rest[0])
    ensures ParseInt("-" + ShowNat(m) + rest) == Some(0 - m as int)
  {
    var u := ShowNat(m) + rest;
    var t := "-" + u;
    assert "-" + ShowNat(m) + rest == t;
    ParseDigitsOfShowNat(m, rest);
    assert t[0] == '-' && t[1..] == u;
    ParseLeadingMinus(t, m);
  }

  /** Parsing the displayed text of a number gives the number back, whatever non-digit text follows it. */
  lemma ParseShow(n: int, rest: string)
    requires rest == [] || !IsDigit(rest[0])
    ensures ParseInt(Show(n) + rest) == Some(n)
  {
    if n < 0 {
      ParseShowNegative(-n, rest);
    } else {
      ParseShowNat(n, rest);
    }
  }

  /** The capacity box's conversion inverts the display of any integer. */
  lemma IntOrZeroShow(n: int)
    ensures IntOrZero(Show(n)) == n
  {
    ParseShow(n, "");
    assert Show(n) + "" == Show(n);
  }

  lemma {:induction false} TrimStartSkipsSpace(space: string, s: string)
    requires forall i | 0 <= i < |space| :: IsSpace(space[i])
    ensures TrimStart(space + s) == TrimStart(s)
  {
    if space != [] {
      assert (space + s)[0] == space[0];
      assert (space + s)[1..] == space[1..] + s;
      TrimStartSkipsSpace(space[1..], s);
    } else {
      assert space + s == s;
    }
  }

  /** Leading white space does not change what `parseInt` reads. */
  lemma ParseIgnoresLeadingSpace(space: string, s: string)
    requires forall i | 0 <= i < |space| :: IsSpace(space[i])
    ensures ParseInt(space + s) == ParseInt(s)
  {
    TrimStartSkipsSpace(space, s);
  }

  /** Text that holds no digit after its white space and sign is NaN, so the box reads 0. */
  lemma NoDigitsIsZero(s: string)
    requires forall i | 0 <= i < |s| :: !IsDigit(s[i])
    ensures ParseInt(s).None?
    ensures IntOrZero(s) == 0
  {
    var t := TrimStart(s);
    assert forall i | 0 <= i < |t| :: t[i] == s[|s| - |t| + i];
  }
}
