/** Numbers written in base ten, as the standard formatter writes them. */
module Decimals {
  import opened KeyOrder

  predicate IsDigit(c: char) {
    '0' <= c <= '9'
  }

  function DigitOf(d: nat): (c: char)
    requires d < 10
    ensures IsDigit(c) && c as int == '0' as int + d
  {
    '0' + d as char
  }

  /** The decimal digits of a natural number, without leading zeros. */
  function Decimal(n: nat): (s: string)
    ensures |s| > 0 && forall j :: 0 <= j < |s| ==> IsDigit(s[j])
  {
    if n < 10 then [DigitOf(n)] else Decimal(n / 10) + [DigitOf(n % 10)]
  }

  function Integer(n: int): string {
    if n < 0 then "-" + Decimal(-n) else Decimal(n)
  }

  /** The number a string of decimal digits stands for. */
  function ValueOf(s: string): nat
    requires forall j :: 0 <= j < |s| ==> IsDigit(s[j])
  {
    if s == [] then 0
    else
      assert IsDigit(s[|s| - 1]);
      ValueOf(s[..|s| - 1]) * 10 + (s[|s| - 1] as int - '0' as int)
  }

  lemma {:induction false} ValueOfDecimal(n: nat)
    ensures ValueOf(Decimal(n)) == n
  {
    var s := Decimal(n);
    if n >= 10 {
      ValueOfDecimal(n / 10);
      assert s[..|s| - 1] == Decimal(n / 10);
    } else {
      assert s[..|s| - 1] == [];
    }
  }

  // ------------------------------------------------------------- padded numbers

  function Zeros(n: nat): (s: string)
    ensures |s| == n
  {
    if n == 0 then "" else Zeros(n - 1) + "0"
  }

  function Padded(s: string, width: nat): string {
    if |s| >= width then s else Zeros(width - |s|) + s
  }

  /** The verb %0wd: the sign counts towards the width. */
  function PaddedInteger(n: int, width: nat): string
    requires width > 0
  {
    if n < 0 then "-" + Padded(Decimal(-n), width - 1) else Padded(Decimal(n), width)
  }

  function Pow10(w: nat): (p: nat)
    ensures p > 0
  {
    if w == 0 then 1 else 10 * Pow10(w - 1)
  }

  /** The last w decimal digits of n. */
  function FixedDigits(n: nat, w: nat): (s: string)
    ensures |s| == w
  {
    if w == 0 then "" else FixedDigits(n / 10, w - 1) + [DigitOf(n % 10)]
  }

  lemma {:induction false} FixedDigitsOfZero(w: nat)
    ensures FixedDigits(0, w) == Zeros(w)
  {
    if w > 0 {
      FixedDigitsOfZero(w - 1);
    }
  }

  lemma {:induction false} PaddedIsFixed(n: nat, w: nat)
    requires w > 0 && n < Pow10(w)
    ensures Padded(Decimal(n), w) == FixedDigits(n, w)
  {
    if n < 10 {
      FixedDigitsOfZero(w - 1);
    } else {
      assert w > 1;
      PaddedIsFixed(n / 10, w - 1);
      var s := Decimal(n / 10);
      assert Padded(s + [DigitOf(n % 10)], w) == Padded(s, w - 1) + [DigitOf(n % 10)];
    }
  }

  function Codes(s: string): (k: Key)
    ensures |k| == |s| && forall j :: 0 <= j < |s| ==> k[j] == s[j] as int
  {
    seq(|s|, j requires 0 <= j < |s| => s[j] as int)
  }

  lemma CodesAppend(a: string, b: string)
    ensures Codes(a + b) == Codes(a) + Codes(b)
  {
  }

  /** Digit strings of one width compare as the numbers they write. */
  lemma {:induction false} FixedDigitsOrder(a: nat, b: nat, w: nat)
    requires a < Pow10(w) && b < Pow10(w)
    ensures Less(Codes(FixedDigits(a, w)), Codes(FixedDigits(b, w))) <==> a < b
    ensures FixedDigits(a, w) == FixedDigits(b, w) <==> a == b
  {
    if w > 0 {
      var a', b' := a / 10, b / 10;
      FixedDigitsOrder(a', b', w - 1);
      var s, t := FixedDigits(a', w - 1), FixedDigits(b', w - 1);
      CodesAppend(s, [DigitOf(a % 10)]);
      CodesAppend(t, [DigitOf(b % 10)]);
      LessByParts(Codes(s), Codes(t), Codes([DigitOf(a % 10)]), Codes([DigitOf(b % 10)]));
      CodesInjective(s, t);
      assert FixedDigits(a, w)[..w - 1] == s && FixedDigits(b, w)[..w - 1] == t;
      assert FixedDigits(a, w)[w - 1] == DigitOf(a % 10) && FixedDigits(b, w)[w - 1] == DigitOf(b % 10);
    }
  }

  lemma CodesInjective(s: string, t: string)
    ensures Codes(s) == Codes(t) <==> s == t
  {
    if Codes(s) == Codes(t) {
      forall j | 0 <= j < |s| ensures s[j] == t[j] {
        assert Codes(s)[j] == Codes(t)[j];
      }
    }
  }

  /** Numbers are written without leading zeros, and padded with zeros up to their width. */
  lemma IntegersAre(n: nat, width: nat, x: int)
    ensures Decimal(n) == if n < 10 then ['0' + n as char] else Decimal(n / 10) + ['0' + (n % 10) as char]
    ensures Integer(x) == if x < 0 then "-" + Decimal(-x) else Decimal(x)
    ensures width > 0 && |Decimal(n)| >= width ==> PaddedInteger(n, width) == Decimal(n)
    ensures width > |Decimal(n)| ==> PaddedInteger(n, width) == Zeros(width - |Decimal(n)|) + Decimal(n)
    ensures Zeros(0) == "" && Zeros(width + 1) == Zeros(width) + "0"
  {
  }
}
