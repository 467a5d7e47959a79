/** Decimal numerals: what strconv and the %d verb of fmt do with them. */
module Decimals {
  import opened Bytes

  predicate IsDigit(c: char) { '0' <= c <= '9' }

  function Digit(d: nat): char
    requires d < 10
  {
    '0' + d as char
  }

  function DigitValue(c: char): nat
    requires IsDigit(c)
  {
    (c - '0') as nat
  }

  /** strconv.FormatUint(n, 10), and "%d" of a non-negative number. */
  function Format(n: nat): (s: string)
    ensures |s| >= 1
  {
    if n < 10 then [Digit(n)] else Format(n / 10) + [Digit(n % 10)]
  }

  predicate AllDigits(s: string) { forall c :: c in s ==> IsDigit(c) }

  function Value(s: string): nat
    requires AllDigits(s)
  {
    if s == [] then 0 else Value(s[..|s| - 1]) * 10 + DigitValue(s[|s| - 1])
  }

  /** strconv.ParseUint(s, 10, bits), where `bound` is 1 << bits. */
  function ParseUint(s: string, bound: nat): Option<int> {
    if s == [] || !AllDigits(s) || Value(s) >= bound then None else Some(Value(s))
  }

  /** strconv.ParseInt(s, 10, bits), where `bound` is 1 << (bits - 1). */
  function ParseInt(s: string, bound: nat): Option<int> {
    if s != [] && s[0] == '-' then
      match ParseUint(s[1..], bound + 1)
      case None => None
      case Some(v) => Some(-v)
    else
      ParseUint(if s != [] && s[0] == '+' then s[1..] else s, bound)
  }

  /** The sign of a number is that of its text, and a text is a number exactly if it is digits behind at most one sign. */
  lemma ParseIntMeaning(digits: string, bound: nat)
    requires digits != "" && AllDigits(digits)
    ensures var v: int := Value(digits);
            && ParseInt(digits, bound) == (if v < bound then Some(v) else None)
            && ParseInt("+" + digits, bound) == (if v < bound then Some(v) else None)
            && ParseInt("-" + digits, bound) == (if v <= bound then Some(-v) else None)
  {
    assert ("+" + digits)[1..] == digits && ("-" + digits)[1..] == digits;
    assert digits[0] in digits;
  }

  lemma NotANumber(s: string, bound: nat)
    ensures ParseInt(s, bound).Some? ==>
              exists digits :: digits != "" && AllDigits(digits) && (s == digits || s == "+" + digits || s == "-" + digits)
  {
    if ParseInt(s, bound).Some? {
      if s[0] == '-' || s[0] == '+' {
        assert s == [s[0]] + s[1..];
        assert AllDigits(s[1..]);
      } else {
        assert AllDigits(s);
      }
    }
  }

  lemma {:induction false} ValueOfFormat(n: nat)
    ensures AllDigits(Format(n)) && Value(Format(n)) == n
  {
    if n >= 10 {
      ValueOfFormat(n / 10);
      assert Format(n)[..|Format(n)| - 1] == Format(n / 10);
    }
  }

  lemma {:induction false} NoLeadingZero(n: nat)
    ensures Format(n)[0] == '0' ==> n == 0 && |Format(n)| == 1
  {
    if n >= 10 {
      NoLeadingZero(n / 10);
      assert Format(n)[0] == Format(n / 10)[0];
    }
  }

  lemma FormatInjective(m: nat, n: nat)
    ensures Format(m) == Format(n) <==> m == n
  {
    ValueOfFormat(m);
    ValueOfFormat(n);
  }

  /** Parsing undoes formatting exactly on the numbers that fit. */
  lemma ParseFormat(n: nat, bound: nat)
    ensures ParseUint(Format(n), bound) == if n < bound then Some(n) else None
    ensures ParseInt(Format(n), bound) == if n < bound then Some(n) else None
  {
    ValueOfFormat(n);
    assert IsDigit(Format(n)[0]);
  }
}
