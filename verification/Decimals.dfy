/** Decimal numerals and the numbers they stand for. */
module Decimals {

  predicate IsDigit(c: char) {
    '0' <= c <= '9'
  }

  predicate AllDigits(s: string) {
    s != "" && forall i :: 0 <= i < |s| ==> IsDigit(s[i])
  }

  function DigitChar(d: nat): char
    requires d < 10
  {
    ('0' as int + d) as char
  }

  function DigitValue(c: char): nat
    requires IsDigit(c)
  {
    c as int - '0' as int
  }

  function Decimal(n: nat): string {
    if n < 10 then [DigitChar(n)] else Decimal(n / 10) + [DigitChar(n % 10)]
  }

  function Signed(n: int): string {
    if n < 0 then "-" + Decimal(-n) else Decimal(n)
  }

  function Number(s: string): nat
    requires AllDigits(s)
  {
    var front, last := s[..|s| - 1], s[|s| - 1];
    (if front == "" then 0 else 10 * Number(front)) + DigitValue(last)
  }

  function DropLeadingZeros(s: string): string {
    if |s| > 1 && s[0] == '0' then DropLeadingZeros(s[1..]) else s
  }

  lemma {:induction false} NumberOfDecimal(n: nat)
    ensures AllDigits(Decimal(n)) && Number(Decimal(n)) == n
    ensures |Decimal(n)| > 1 ==> Decimal(n)[0] != '0'
  {
    if n >= 10 {
      NumberOfDecimal(n / 10);
      var s := Decimal(n);
      assert s[..|s| - 1] == Decimal(n / 10);
      assert |Decimal(n / 10)| == 1 ==> n / 10 < 10;
    }
  }

  lemma {:induction false} DecimalOfNumber(s: string)
    requires AllDigits(s) && (|s| > 1 ==> s[0] != '0')
    ensures Decimal(Number(s)) == s
    ensures s[0] != '0' ==> Number(s) > 0
  {
    var front, last := s[..|s| - 1], s[|s| - 1];
    if front != "" {
      DecimalOfNumber(front);
      assert Number(s) / 10 == Number(front) && Number(s) % 10 == DigitValue(last);
      assert s == front + [last];
    }
  }

  lemma {:induction false} LeadingZero(s: string)
    requires AllDigits(s)
    ensures AllDigits("0" + s) && Number("0" + s) == Number(s)
  {
    var longer := "0" + s;
    var front := s[..|s| - 1];
    assert longer[..|longer| - 1] == "0" + front;
    if front == "" {
      assert "0" + front == "0" && Number("0") == 0;
    } else {
      LeadingZero(front);
    }
  }

  lemma {:induction false} DropLeadingZerosKeepsNumber(s: string)
    requires AllDigits(s)
    ensures AllDigits(DropLeadingZeros(s)) && Number(DropLeadingZeros(s)) == Number(s)
    ensures |DropLeadingZeros(s)| > 1 ==> DropLeadingZeros(s)[0] != '0'
  {
    if |s| > 1 && s[0] == '0' {
      DropLeadingZerosKeepsNumber(s[1..]);
      LeadingZero(s[1..]);
      assert s == "0" + s[1..];
    }
  }
}
