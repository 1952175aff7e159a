/** Numbers in digits. */
module Numbers {
  import opened Wrappers
  import opened Text

  function DigitValue(c: char): int {
    if '0' <= c <= '9' then c as int - '0' as int
    else if 'a' <= c <= 'z' then c as int - 'a' as int + 10
    else if 'A' <= c <= 'Z' then c as int - 'A' as int + 10
    else 36
  }

  /** The value of a run of digits of a radix, if every character is one. */
  function Digits(s: string, radix: int): (v: Option<int>)
    requires radix == 10 || radix == 16
    ensures v.Some? ==> 0 <= v.value
  {
    if s == [] then Some(0)
    else
      var last := DigitValue(s[|s| - 1]);
      match Digits(s[..|s| - 1], radix)
      case Some(v) => if last < radix then Some(v * radix + last) else None
      case None => None
  }

  function DigitChar(d: nat): (c: char)
    requires d < 10
    ensures IsDigit(c) && DigitValue(c) == d
  {
    ('0' as int + d) as char
  }

  function Decimal(n: nat): (s: string)
    ensures s != [] && forall c :: c in s ==> IsDigit(c)
  {
    (if n < 10 then [] else Decimal(n / 10)) + [DigitChar(n % 10)]
  }

  lemma {:induction false} DigitsDecimal(n: nat)
    ensures Digits(Decimal(n), 10) == Some(n)
  {
    var s := Decimal(n);
    if n >= 10 {
      assert s[..|s| - 1] == Decimal(n / 10);
      DigitsDecimal(n / 10);
    } else {
      assert s[..|s| - 1] == [];
    }
  }
}
