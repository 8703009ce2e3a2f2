/**
 Text forms of a serial number: the decimal cache and CRL-index key, and the upper-case hexadecimal
 form that goes into the upstream URL. Both are injective, because both can be read back.
 */
module SerialText {

  function DigitChar(d: nat): char
    requires d < 16
  {
    if d < 10 then '0' + d as char else 'a' + (d - 10) as char
  }

  /** Reads a digit in either letter case. */
  function DigitValue(c: char): nat {
    if '0' <= c <= '9' then (c as int) - ('0' as int)
    else if 'a' <= c <= 'f' then (c as int) - ('a' as int) + 10
    else if 'A' <= c <= 'F' then (c as int) - ('A' as int) + 10
    else 0
  }

  function Digits(n: nat, radix: nat): string
    requires 2 <= radix <= 16
  {
    if n < radix then [DigitChar(n)] else Digits(n / radix, radix) + [DigitChar(n % radix)]
  }

  function DigitsValue(s: string, radix: nat): nat {
    if s == [] then 0 else DigitsValue(s[..|s| - 1], radix) * radix + DigitValue(s[|s| - 1])
  }

  /** `big.Int.Text(radix)`: a minus sign for negative numbers, lower-case digits. */
  function Text(n: int, radix: nat): string
    requires 2 <= radix <= 16
  {
    if n < 0 then "-" + Digits(-n, radix) else Digits(n, radix)
  }

  function TextValue(s: string, radix: nat): int {
    if s != [] && s[0] == '-' then 0 - DigitsValue(s[1..], radix) else DigitsValue(s, radix)
  }

  /** `big.Int.String()`. */
  function Decimal(n: int): string { Text(n, 10) }

  function UpperChar(c: char): char {
    if 'a' <= c <= 'z' then ((c as int) - 32) as char else c
  }

  /** `strings.ToUpper` on the ASCII text that number printing produces. */
  function Upper(s: string): (r: string)
    ensures |r| == |s|
    ensures forall i :: 0 <= i < |s| ==> r[i] == UpperChar(s[i])
  {
    seq(|s|, i requires 0 <= i < |s| => UpperChar(s[i]))
  }

  function UpperHex(n: int): string { Upper(Text(n, 16)) }

  lemma DigitRoundTrip(d: nat)
    requires d < 16
    ensures DigitValue(DigitChar(d)) == d
    ensures DigitValue(UpperChar(DigitChar(d))) == d
    ensures DigitChar(d) != '-'
  {
  }

  /** Appending a digit multiplies by the radix and adds the digit. */
  lemma DigitsValueSnoc(s: string, c: char, radix: nat)
    ensures DigitsValue(s + [c], radix) == DigitsValue(s, radix) * radix + DigitValue(c)
  {
    assert (s + [c])[..|s|] == s;
  }

  lemma UpperSnoc(s: string, c: char)
    ensures Upper(s + [c]) == Upper(s) + [UpperChar(c)]
  {
  }

  lemma Remainder(n: nat, radix: nat)
    requires 2 <= radix
    ensures n == (n / radix) * radix + n % radix
    ensures n >= radix ==> n / radix < n
  {
  }

  lemma {:induction false} DigitsRoundTrip(n: nat, radix: nat)
    requires 2 <= radix <= 16
    ensures DigitsValue(Digits(n, radix), radix) == n
    ensures DigitsValue(Upper(Digits(n, radix)), radix) == n
    ensures Digits(n, radix) != [] && Digits(n, radix)[0] != '-'
  {
    if n < radix {
      DigitRoundTrip(n);
      DigitsValueSnoc("", DigitChar(n), radix);
      DigitsValueSnoc("", UpperChar(DigitChar(n)), radix);
      UpperSnoc("", DigitChar(n));
      assert Upper("") == "" && "" + [DigitChar(n)] == [DigitChar(n)];
    } else {
      Remainder(n, radix);
      var q, d := n / radix, n % radix;
      var p, c := Digits(q, radix), DigitChar(d);
      DigitsRoundTrip(q, radix);
      DigitRoundTrip(d);
      DigitsValueSnoc(p, c, radix);
      UpperSnoc(p, c);
      DigitsValueSnoc(Upper(p), UpperChar(c), radix);
      assert Digits(n, radix) == p + [c];
    }
  }

  /** Reading a printed number back gives the number, in lower or upper case, for either sign. */
  lemma TextRoundTrip(n: int, radix: nat)
    requires 2 <= radix <= 16
    ensures TextValue(Text(n, radix), radix) == n
    ensures TextValue(Upper(Text(n, radix)), radix) == n
  {
    var m := if n < 0 then -n else n;
    DigitsRoundTrip(m, radix);
    var d := Digits(m, radix);
    if n < 0 {
      assert Text(n, radix)[1..] == d;
      assert Upper(Text(n, radix))[1..] == Upper(d);
    }
  }

  lemma DecimalInjective(a: int, b: int)
    ensures Decimal(a) == Decimal(b) <==> a == b
  {
    TextRoundTrip(a, 10);
    TextRoundTrip(b, 10);
  }

  lemma UpperHexInjective(a: int, b: int)
    ensures UpperHex(a) == UpperHex(b) <==> a == b
  {
    TextRoundTrip(a, 16);
    TextRoundTrip(b, 16);
  }

  // ---- The printed form ----

  /** A numeral as `big.Int` prints it: lower-case digits of the radix, and no leading zero but in "0" itself. */
  predicate Canonical(s: string, radix: nat) {
    && s != [] && (s[0] == '0' ==> |s| == 1)
    && forall i :: 0 <= i < |s| ==> ('0' <= s[i] <= '9' || 'a' <= s[i] <= 'f') && DigitValue(s[i]) < radix
  }

  lemma DigitForm(d: nat)
    requires d < 16
    ensures d < 10 ==> DigitChar(d) as int == 48 + d                                                // '0'..'9'
    ensures d >= 10 ==> DigitChar(d) as int == 97 + (d - 10)                                        // 'a'..'f'
    ensures d >= 10 ==> UpperChar(DigitChar(d)) as int == 65 + (d - 10)                             // 'A'..'F'
    ensures d < 10 ==> UpperChar(DigitChar(d)) == DigitChar(d)
  {
  }

  lemma {:induction false} DigitsCanonical(n: nat, radix: nat)
    requires 2 <= radix <= 16
    ensures Canonical(Digits(n, radix), radix) && (Digits(n, radix)[0] == '0' ==> n == 0)
  {
    if n < radix {
      DigitRoundTrip(n);
    } else {
      Remainder(n, radix);
      DigitsCanonical(n / radix, radix);
      DigitRoundTrip(n % radix);
      assert n / radix > 0;
    }
  }

  lemma Exceeds(a: nat, q: nat, b: nat, d: nat, radix: nat)
    requires a > q && d < radix
    ensures a * radix + b > q * radix + d
  {
    var k := a - q - 1;
    assert a * radix == q * radix + radix + k * radix;
  }

  /** Quotient and remainder are unique. */
  lemma SameQuotient(a: nat, b: nat, q: nat, d: nat, radix: nat)
    requires b < radix && d < radix && a * radix + b == q * radix + d
    ensures a == q && b == d
  {
    if a > q { Exceeds(a, q, b, d, radix); }
    if a < q { Exceeds(q, a, d, b, radix); }
  }

  /** Appending a digit to a numeral other than zero is what printing does. */
  lemma DigitsSnoc(q: nat, d: nat, n: nat, radix: nat)
    requires 2 <= radix <= 16 && q > 0 && d < radix && n == q * radix + d
    ensures Digits(n, radix) == Digits(q, radix) + [DigitChar(d)]
  {
    Remainder(n, radix);
    SameQuotient(n / radix, n % radix, q, d, radix);
    if n < radix { Exceeds(q, 0, d, n, radix); }
  }

  lemma PrintStep(init: string, c: char, radix: nat)
    requires 2 <= radix <= 16 && DigitValue(c) < radix && DigitChar(DigitValue(c)) == c
    requires DigitsValue(init, radix) > 0 && Digits(DigitsValue(init, radix), radix) == init
    ensures DigitsValue(init + [c], radix) > 0 && Digits(DigitsValue(init + [c], radix), radix) == init + [c]
  {
    var q, d, n := DigitsValue(init, radix), DigitValue(c), DigitsValue(init + [c], radix);
    DigitsValueSnoc(init, c, radix);
    DigitsSnoc(q, d, n, radix);
    Exceeds(q, 0, d, 0, radix);
  }

  lemma PrintDigit(c: char, radix: nat)
    requires 2 <= radix <= 16 && DigitValue(c) < radix && ('0' <= c <= '9' || 'a' <= c <= 'f')
    ensures DigitChar(DigitValue(c)) == c && (c != '0' ==> DigitValue(c) > 0)
    ensures DigitsValue([c], radix) == DigitValue(c) && Digits(DigitValue(c), radix) == [c]
  {
    assert [c][..0] == "";
  }

  /** Printing undoes reading: each number has exactly one canonical numeral, and that is what is printed. */
  lemma {:induction false} PrintRead(s: string, radix: nat)
    requires 2 <= radix <= 16 && Canonical(s, radix)
    ensures Digits(DigitsValue(s, radix), radix) == s
    ensures s[0] != '0' ==> DigitsValue(s, radix) > 0
  {
    var init, c := s[..|s| - 1], s[|s| - 1];
    assert s == init + [c];
    PrintDigit(c, radix);
    if init == [] {
      assert s == [c];
    } else {
      assert init[0] == s[0];
      PrintRead(init, radix);
      PrintStep(init, c, radix);
    }
  }

  /**
   The text of a number is the one canonical numeral of its magnitude, after a minus sign if it is negative;
   and any such text is printed for the number it denotes.
   */
  lemma TextIsCanonical(n: int, radix: nat, s: string)
    requires 2 <= radix <= 16
    ensures n >= 0 ==> Canonical(Text(n, radix), radix)
    ensures n < 0 ==> Text(n, radix)[0] == '-' && Canonical(Text(n, radix)[1..], radix)
    ensures Canonical(s, radix) ==> Text(DigitsValue(s, radix), radix) == s
  {
    DigitsCanonical(if n < 0 then -n else n, radix);
    if n < 0 { assert Text(n, radix)[1..] == Digits(-n, radix); }
    if Canonical(s, radix) { PrintRead(s, radix); }
  }
}
