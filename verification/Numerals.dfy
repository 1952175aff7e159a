/** Integers as C and C# write them: decimal or hexadecimal, with suffixes. */
module Numerals {
  import opened Wrappers
  import opened Text
  import opened Numbers
  import Condition

  datatype Radix = Base10 | Base16(mark: char, upper: bool)

  datatype Numeral = Numeral(radix: Radix, number: nat, suffix: string)

  predicate Suffixes(s: string) {
    forall k :: 0 <= k < |s| ==> s[k] == 'u' || s[k] == 'U' || s[k] == 'l' || s[k] == 'L'
  }

  predicate NumeralOk(n: Numeral) {
    Suffixes(n.suffix) && (n.radix.Base16? ==> n.radix.mark == 'x' || n.radix.mark == 'X')
  }

  function HexChar(d: nat, upper: bool): (c: char)
    requires d < 16
    ensures DigitValue(c) == d && IsWordChar(c) && c != '_' && c !in "uUlL"
  {
    if d < 10 then ('0' as int + d) as char
    else if upper then ('A' as int + d - 10) as char
    else ('a' as int + d - 10) as char
  }

  function Hexadecimal(n: nat, upper: bool): (s: string)
    ensures s != [] && forall k :: 0 <= k < |s| ==> IsWordChar(s[k]) && s[k] != '_' && s[k] !in "uUlL"
  {
    (if n < 16 then [] else Hexadecimal(n / 16, upper)) + [HexChar(n % 16, upper)]
  }

  lemma {:induction false} DigitsHexadecimal(n: nat, upper: bool)
    ensures Digits(Hexadecimal(n, upper), 16) == Some(n)
  {
    var s := Hexadecimal(n, upper);
    if n >= 16 {
      assert s[..|s| - 1] == Hexadecimal(n / 16, upper);
      DigitsHexadecimal(n / 16, upper);
    } else {
      assert s[..|s| - 1] == [];
    }
  }

  /** A number without its suffix. */
  function NumberDigits(n: Numeral): string {
    match n.radix
    case Base10 => Decimal(n.number)
    case Base16(mark, upper) => ['0', mark] + Hexadecimal(n.number, upper)
  }

  function NumeralText(n: Numeral): string { NumberDigits(n) + n.suffix }

  lemma {:induction false} SuffixTrimmed(s: string, suffix: string)
    requires s != "" && s[|s| - 1] !in "uUlL" && Suffixes(suffix)
    ensures Condition.TrimSuffixes(s + suffix) == s
    decreases |suffix|
  {
    if suffix == "" {
      assert s + suffix == s;
    } else {
      var most := suffix[..|suffix| - 1];
      assert (s + suffix)[..|s + suffix| - 1] == s + most;
      SuffixTrimmed(s, most);
    }
  }

  /** The digits of a number: word characters, none of which is a separator or a suffix. */
  lemma DigitsPlain(n: Numeral)
    requires NumeralOk(n)
    ensures var d := NumberDigits(n);
            && d != "" && IsDigit(d[0]) && d[|d| - 1] !in "uUlL"
            && (forall k :: 0 <= k < |d| ==> IsWordChar(d[k]) && d[k] != '_')
            && (n.radix.Base10? ==> forall k :: 0 <= k < |d| ==> IsDigit(d[k]))
  {
    hide Decimal, Hexadecimal;
    var d := NumberDigits(n);
    if n.radix.Base16? {
      var h := Hexadecimal(n.number, n.radix.upper);
      forall k | 0 <= k < |d| ensures IsWordChar(d[k]) && d[k] != '_' {
        if k >= 2 { assert d[k] == h[k - 2]; }
      }
      assert d[|d| - 1] == h[|h| - 1];
    } else {
      DecimalDigits(n.number);
    }
  }

  lemma DecimalDigits(n: nat)
    ensures forall k :: 0 <= k < |Decimal(n)| ==> IsDigit(Decimal(n)[k])
  {
    hide Decimal, IsDigit;
    forall k | 0 <= k < |Decimal(n)| ensures IsDigit(Decimal(n)[k]) {
      assert Decimal(n)[k] in Decimal(n);
    }
  }

  /** What the two readers of integers make of the digits. */
  lemma DigitsParsed(n: Numeral)
    requires NumeralOk(n)
    ensures var d := NumberDigits(n); var hex := StartsWith(d, "0x") || StartsWith(d, "0X");
            && hex == n.radix.Base16?
            && (if hex then Digits(d[2..], 16) else Digits(d, 10)) == Some(n.number)
            && (hex ==> d[2..] != "" && IsWordChar(d[2]))
  {
    hide Decimal, Hexadecimal, Digits;
    assert "0x"[0] == '0' && "0x"[1] == 'x' && "0X"[0] == '0' && "0X"[1] == 'X';
    match n.radix
    case Base16(_, upper) =>
      var h := Hexadecimal(n.number, upper);
      assert NumberDigits(n)[2..] == h && NumberDigits(n)[2] == h[0];
      DigitsHexadecimal(n.number, upper);
    case Base10 =>
      DecimalDigits(n.number);
      DigitsDecimal(n.number);
  }

  /** A C integer is read as its number, up to the largest of 128 bits with a sign, and refused above. */
  lemma IntegerWritten(n: Numeral)
    requires NumeralOk(n)
    ensures var text := NumeralText(n);
            Condition.Integer(text) == if n.number <= 0x7FFF_FFFF_FFFF_FFFF_FFFF_FFFF_FFFF_FFFF then Ok(n.number)
                                       else Err(Condition.BadInteger(text))
  {
    hide NumberDigits, Condition.TrimSuffixes, Digits, IsDigit, StartsWith;
    DigitsPlain(n);
    SuffixTrimmed(NumberDigits(n), n.suffix);
    DigitsParsed(n);
  }

  lemma NumeralIsWord(n: Numeral)
    requires NumeralOk(n)
    ensures var text := NumeralText(n);
            text != "" && IsDigit(text[0]) && forall k :: 0 <= k < |text| ==> IsWordChar(text[k])
  {
    hide NumberDigits;
    DigitsPlain(n);
    var d, text := NumberDigits(n), NumeralText(n);
    forall k | 0 <= k < |text| ensures IsWordChar(text[k]) {
      if k < |d| { assert text[k] == d[k]; } else { assert text[k] == n.suffix[k - |d|]; }
    }
    assert text[0] == d[0];
  }
}
