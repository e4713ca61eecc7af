/** Numbers in decimal: `std::to_string` and `std::atoi` as the code uses them. */
module Decimals {
  import opened Bytes

  const MINUS: byte := 45

  predicate IsDigit(c: byte) {
    48 <= c <= 57
  }

  predicate AllDigits(text: Bytes) {
    forall i :: 0 <= i < |text| ==> IsDigit(text[i])
  }

  function DigitValue(c: byte): nat {
    (c - 48) as int
  }

  // The number digits spell.
  function Number(text: Bytes): nat {
    if text == [] then 0 else 10 * Number(text[..|text| - 1]) + DigitValue(text[|text| - 1])
  }

  function Digit(n: nat): byte
    requires n < 10
  {
    48 + (n as bv8)
  }

  function Decimal(n: nat): (text: Bytes)
    ensures text != []
  {
    if n < 10 then [Digit(n)] else Decimal(n / 10) + [Digit(n % 10)]
  }

  lemma DigitRead(n: nat)
    requires n < 10
    ensures IsDigit(Digit(n)) && DigitValue(Digit(n)) == n
  {
  }

  lemma {:induction false} DecimalReads(n: nat)
    ensures AllDigits(Decimal(n)) && Number(Decimal(n)) == n
  {
    var text := Decimal(n);
    DigitRead(n % 10);
    assert text[|text| - 1] == Digit(n % 10);
    hide Digit, IsDigit, DigitValue;
    if n < 10 {
      assert text[..0] == [];
      assert Number([]) == 0;
    } else {
      DecimalReads(n / 10);
      assert text[..|text| - 1] == Decimal(n / 10);
    }
  }

  // And without a zero in front.
  lemma {:induction false} DecimalFirst(n: nat)
    ensures |Decimal(n)| > 1 ==> Decimal(n)[0] != Digit(0)
  {
    if n >= 10 {
      DecimalFirst(n / 10);
      if n / 10 < 10 {
        DigitRead(n / 10);
        DigitRead(0);
        hide Digit, DigitValue;
        assert DigitValue(Digit(n / 10)) != DigitValue(Digit(0));
      }
    }
  }

  lemma SpelledDigits()
    ensures Spells([Digit(0), Digit(1), Digit(2), Digit(3), Digit(4), Digit(5), Digit(6), Digit(7), Digit(8), Digit(9)],
                   "0123456789")
    ensures Spells([MINUS], "-")
  {
  }

  lemma {:induction false} DecimalShort(n: nat)
    requires n <= 65535
    ensures |Decimal(n)| <= 5
  {
    assert n >= 10 ==> |Decimal(n)| == 1 + |Decimal(n / 10)|;
    assert n >= 100 ==> |Decimal(n / 10)| == 1 + |Decimal(n / 10 / 10)|;
    assert n >= 1000 ==> |Decimal(n / 10 / 10)| == 1 + |Decimal(n / 10 / 10 / 10)|;
    assert n >= 10000 ==> |Decimal(n / 10 / 10 / 10)| == 1 + |Decimal(n / 10 / 10 / 10 / 10)|;
  }

  // std::to_string of a signed number, and its reading.
  function Signed(n: int): Bytes {
    if n < 0 then [MINUS] + Decimal(-n) else Decimal(n)
  }

  function SignedNumber(text: Bytes): int {
    var size: int := Number(if text != [] && text[0] == MINUS then text[1..] else text);
    if text != [] && text[0] == MINUS then -size else size
  }

  lemma {:induction false} SignedReads(n: int)
    ensures SignedNumber(Signed(n)) == n
    ensures forall i :: 0 <= i < |Signed(n)| ==> IsDigit(Signed(n)[i]) || Signed(n)[i] == MINUS
  {
    var size := if n < 0 then -n else n;
    DecimalReads(size);
    hide Decimal, Number;
    assert ([MINUS] + Decimal(size))[1..] == Decimal(size);
    assert IsDigit(Decimal(size)[0]);
  }
}
