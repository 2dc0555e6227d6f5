// Decimal numerals, as strconv.Itoa prints and strconv.Atoi reads them.
module Decimal {
  import opened Options

  predicate IsDigit(c: char) {
    '0' <= c <= '9'
  }

  predicate AllDigits(s: string) {
    forall i :: 0 <= i < |s| ==> IsDigit(s[i])
  }

  function Digit(d: nat): char
    requires d < 10
  {
    ('0' as int + d) as char
  }

  function DigitValue(c: char): nat
    requires IsDigit(c)
  {
    c as int - '0' as int
  }

  function NatToString(n: nat): (s: string)
    ensures s != "" && AllDigits(s)
  {
    if n < 10 then [Digit(n)] else NatToString(n / 10) + [Digit(n % 10)]
  }

  function DigitsValue(s: string): nat
    requires AllDigits(s)
  {
    if s == "" then 0
    else DigitsValue(s[..|s| - 1]) * 10 + DigitValue(s[|s| - 1])
  }

  lemma {:induction false} DigitsValueOfNat(n: nat)
    ensures DigitsValue(NatToString(n)) == n
  {
    if n >= 10 {
      DigitsValueOfNat(n / 10);
      var s := NatToString(n);
      assert s[..|s| - 1] == NatToString(n / 10);
    } else {
      assert [Digit(n)][..0] == "";
    }
  }

  lemma NatToStringInjective(m: nat, n: nat)
    requires NatToString(m) == NatToString(n)
    ensures m == n
  {
    DigitsValueOfNat(m);
    DigitsValueOfNat(n);
  }

  // The machine integers of the source.
  const MAX_INT: int := 0x7FFF_FFFF_FFFF_FFFF
  const MIN_INT: int := -0x8000_0000_0000_0000

  predicate InRange(i: int) {
    MIN_INT <= i <= MAX_INT
  }

  function Itoa(i: int): string {
    if i < 0 then "-" + NatToString(-i) else NatToString(i)
  }

  // An optional sign and at least one digit; None if the value does not fit.
  function Atoi(s: string): Option<int> {
    var signed := s != "" && (s[0] == '-' || s[0] == '+');
    var digits := if signed then s[1..] else s;
    if digits == "" || !AllDigits(digits) then None
    else
      var v: int := if signed && s[0] == '-' then 0 - DigitsValue(digits) else DigitsValue(digits);
      if InRange(v) then Some(v) else None
  }

  lemma AtoiOfNat(n: nat)
    requires n <= MAX_INT
    ensures Atoi(NatToString(n)) == Some(n)
  {
    DigitsValueOfNat(n);
    assert IsDigit(NatToString(n)[0]);
  }

  lemma AtoiOfNegative(n: nat)
    requires 0 < n <= -MIN_INT
    ensures Atoi("-" + NatToString(n)) == Some(0 - n)
  {
    DigitsValueOfNat(n);
    assert ("-" + NatToString(n))[1..] == NatToString(n);
  }

  lemma AtoiOfItoa(i: int)
    requires InRange(i)
    ensures Atoi(Itoa(i)) == Some(i)
  {
    if i < 0 {
      AtoiOfNegative(-i);
    } else {
      AtoiOfNat(i);
    }
  }

  // Only 64-bit integers are read.
  lemma AtoiInRange(i: int)
    ensures Atoi(Itoa(i)).Some? <==> -0x8000_0000_0000_0000 <= i <= 0x7FFF_FFFF_FFFF_FFFF
  {
    if i < 0 {
      DigitsValueOfNat(-i);
      assert ("-" + NatToString(-i))[1..] == NatToString(-i);
    } else {
      DigitsValueOfNat(i);
      assert IsDigit(NatToString(i)[0]);
    }
  }

  // Numerals hold digits and a sign only.
  lemma ItoaChars(i: int)
    ensures forall k :: 0 <= k < |Itoa(i)| ==> IsDigit(Itoa(i)[k]) || Itoa(i)[k] == '-'
    ensures Itoa(i) != ""
  {
  }

  // Numbers are written with the highest digit first; signs and zeros in front
  // are read.
  lemma DecimalExamples()
    ensures Itoa(-120) == "-120" && Itoa(9) == "9"
    ensures Atoi("+5") == Some(5) && Atoi("-07") == Some(-7) && Atoi("-") == None && Atoi("") == None
  {
    assert NatToString(1) == "1" && NatToString(12) == "12";
    assert DigitsValue("5") == 5;
    assert "07"[..1] == "0" && DigitsValue("0") == 0;
    assert "+5"[1..] == "5" && "-07"[1..] == "07" && "-"[1..] == "";
  }
}
