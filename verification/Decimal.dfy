/** atoi and itoa, on unbounded integers. */
module Decimal {

  predicate IsSpace(c: char) {
    c == ' ' || c == '\t' || c == '\n' || c == '\r' || c as int == 11 || c as int == 12
  }

  predicate IsDigit(c: char) {
    '0' <= c <= '9'
  }

  function DigitsValue(s: string, acc: int): int {
    if s == "" || !IsDigit(s[0]) then acc else DigitsValue(s[1..], 10 * acc + (s[0] as int - '0' as int))
  }

  /** atoi: blanks, an optional sign, then digits up to the first other character. */
  function Atoi(s: string): int {
    if s == "" then 0
    else if IsSpace(s[0]) then Atoi(s[1..])
    else if s[0] == '-' then -DigitsValue(s[1..], 0)
    else if s[0] == '+' then DigitsValue(s[1..], 0)
    else DigitsValue(s, 0)
  }

  function Digits(n: nat): (s: string)
    ensures s != "" && forall i :: 0 <= i < |s| ==> IsDigit(s[i])
  {
    (if n < 10 then "" else Digits(n / 10)) + [('0' as int + n % 10) as char]
  }

  /** itoa in base ten. */
  function Itoa(n: int): string {
    if n < 0 then "-" + Digits(-n) else Digits(n)
  }

  lemma {:induction false} DigitsValueOfMore(s: string, c: char, acc: int)
    requires IsDigit(c) && forall i :: 0 <= i < |s| ==> IsDigit(s[i])
    ensures DigitsValue(s + [c], acc) == 10 * DigitsValue(s, acc) + (c as int - '0' as int)
  {
    if s == "" {
      assert (s + [c])[1..] == "";
    } else {
      assert (s + [c])[1..] == s[1..] + [c];
      DigitsValueOfMore(s[1..], c, 10 * acc + (s[0] as int - '0' as int));
    }
  }

  lemma {:induction false} DigitsRoundTrip(n: nat)
    ensures DigitsValue(Digits(n), 0) == n
  {
    var front := if n < 10 then "" else Digits(n / 10);
    if n >= 10 {
      DigitsRoundTrip(n / 10);
    }
    DigitsValueOfMore(front, ('0' as int + n % 10) as char, 0);
  }

  /** What the device prints for a number reads back as that number. */
  lemma AtoiOfItoa(n: int)
    ensures Atoi(Itoa(n)) == n
  {
    DigitsRoundTrip(if n < 0 then -n else n);
    var s := Itoa(n);
    if n < 0 {
      assert s[1..] == Digits(-n);
    } else {
      assert IsDigit(s[0]);
    }
  }

  lemma ItoaOfBit()
    ensures Itoa(1) == "1" && Itoa(0) == "0"
  {
  }

  /** The digits of a number, most significant first, and the sign in front. */
  lemma ItoaDigits(q: int, r: nat)
    requires q >= 0 && r < 10
    ensures Itoa(r) == ["0123456789"[r]]
    ensures q > 0 ==> Itoa(10 * q + r) == Itoa(q) + ["0123456789"[r]]
    ensures q > 0 ==> Itoa(-q) == "-" + Itoa(q)
  {
    assert "0123456789"[r] == ('0' as int + r) as char;
    assert (10 * q + r) / 10 == q && (10 * q + r) % 10 == r;
  }

  lemma {:induction false} DigitsValueStops(s: string, rest: string, acc: int)
    requires forall i :: 0 <= i < |s| ==> IsDigit(s[i])
    requires rest == "" || !('0' <= rest[0] <= '9')
    ensures DigitsValue(s + rest, acc) == DigitsValue(s, acc)
  {
    if s == "" {
      assert s + rest == rest;
    } else {
      assert (s + rest)[1..] == s[1..] + rest;
      DigitsValueStops(s[1..], rest, 10 * acc + (s[0] as int - '0' as int));
    }
  }

  lemma AtoiStep(c: char, s: string)
    requires !IsSpace(c)
    ensures Atoi([c] + s) ==
            if c == '-' then -DigitsValue(s, 0) else if c == '+' then DigitsValue(s, 0) else DigitsValue([c] + s, 0)
  {
    assert ([c] + s)[1..] == s;
  }

  lemma AtoiOfDigits(digits: string, rest: string)
    requires digits != "" && forall i :: 0 <= i < |digits| ==> IsDigit(digits[i])
    requires rest == "" || !('0' <= rest[0] <= '9')
    ensures Atoi(digits + rest) == DigitsValue(digits, 0)
    ensures Atoi("-" + digits + rest) == -DigitsValue(digits, 0)
    ensures Atoi("+" + digits + rest) == DigitsValue(digits, 0)
  {
    hide Atoi, DigitsValue;
    DigitsValueStops(digits, rest, 0);
    var all := digits + rest;
    assert all == [digits[0]] + all[1..];
    AtoiStep(digits[0], all[1..]);
    assert "-" + digits + rest == ['-'] + all && "+" + digits + rest == ['+'] + all;
    AtoiStep('-', all);
    AtoiStep('+', all);
  }

  /** A number is read up to the first other character, with a plus sign or without. */
  lemma AtoiStops(n: int, rest: string)
    requires rest == "" || !('0' <= rest[0] <= '9')
    ensures Atoi(Itoa(n) + rest) == n
    ensures n >= 0 ==> Atoi("+" + Itoa(n) + rest) == n
  {
    var m: nat := if n < 0 then -n else n;
    DigitsRoundTrip(m);
    hide DigitsValue, Digits, Atoi;
    AtoiOfDigits(Digits(m), rest);
  }

  /** Leading blanks are skipped, and text that starts otherwise than with a number reads as zero. */
  lemma AtoiOfText(blank: char, s: string)
    ensures blank in {' ', '\t', '\n', '\r'} ==> Atoi([blank] + s) == Atoi(s)
    ensures s != "" && s[0] as int > 32 && !('0' <= s[0] <= '9') && s[0] !in {'+', '-'} ==> Atoi(s) == 0
    ensures Atoi("") == 0
  {
    assert ([blank] + s)[1..] == s;
  }
}
