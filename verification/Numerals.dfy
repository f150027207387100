/** What the numeral parsers and printers are measured against: the value of a digit string
    in a radix, and the decimal numeral of a number. */
module Numerals {

  newtype int32 = x: int | -0x8000_0000 <= x < 0x8000_0000
  newtype uint32 = x: int | 0 <= x < 0x1_0000_0000
  newtype int64 = x: int | -0x8000_0000_0000_0000 <= x < 0x8000_0000_0000_0000
  newtype uint64 = x: int | 0 <= x < 0x1_0000_0000_0000_0000

  /** Table g_charValue of src/ge/util/UtilData.cpp. */
  function CharValue(c: char): (v: int)
    ensures -1 <= v < 16
  {
    if '0' <= c <= '9' then c as int - '0' as int
    else if 'A' <= c <= 'F' then c as int - 'A' as int + 10
    else if 'a' <= c <= 'f' then c as int - 'a' as int + 10
    else -1
  }

  /** The table against the digits themselves, in either case. */
  lemma CharValueOfDigits(k: nat)
    requires k < 16
    ensures CharValue("0123456789ABCDEF"[k]) == k == CharValue("0123456789abcdef"[k])
  {
  }

  lemma CharValueOfOthers(c: char)
    ensures CharValue(c) == -1 <==> c !in "0123456789ABCDEFabcdef"
  {
    if '0' <= c <= '9' {
      assert c == "0123456789ABCDEFabcdef"[c as int - '0' as int];
    } else if 'A' <= c <= 'F' {
      assert c == "0123456789ABCDEFabcdef"[c as int - 'A' as int + 10];
    } else if 'a' <= c <= 'f' {
      assert c == "0123456789ABCDEFabcdef"[c as int - 'a' as int + 16];
    }
  }

  predicate IsDigit(c: char, radix: nat) {
    0 <= CharValue(c) < radix
  }

  predicate AllDigits(s: seq<char>, radix: nat) {
    forall k :: 0 <= k < |s| ==> IsDigit(s[k], radix)
  }

  /** The number a digit string stands for, most significant digit first. */
  function Value(s: seq<char>, radix: nat): nat
    requires AllDigits(s, radix)
  {
    if s == [] then 0
    else
      var front := s[..|s| - 1];
      Value(front, radix) * radix + CharValue(s[|s| - 1])
  }

  lemma ValueSnoc(s: seq<char>, k: nat, radix: nat)
    requires k < |s| && AllDigits(s[..k], radix) && IsDigit(s[k], radix)
    ensures AllDigits(s[..k + 1], radix)
    ensures Value(s[..k + 1], radix) == Value(s[..k], radix) * radix + CharValue(s[k])
  {
    assert s[..k + 1][..k] == s[..k];
    assert forall j :: 0 <= j < k + 1 ==> s[..k + 1][j] == if j < k then s[..k][j] else s[k];
  }

  /** Digits appended later never make the number smaller. */
  lemma {:induction false} ValueGrows(s: seq<char>, k: nat, radix: nat)
    requires AllDigits(s, radix) && radix > 0 && k <= |s|
    ensures AllDigits(s[..k], radix) && Value(s[..k], radix) <= Value(s, radix)
    decreases |s|
  {
    if k == |s| {
      assert s[..k] == s;
    } else {
      var front := s[..|s| - 1];
      assert front[..k] == s[..k];
      ValueGrows(front, k, radix);
      TimesAtLeast(Value(front, radix), radix);
    }
  }

  lemma TimesAtLeast(a: nat, b: nat)
    requires b > 0
    ensures a <= a * b
  {
  }

  /** One more digit takes the number past `limit` exactly when the guards say so. */
  lemma GuardsAreExact(value: nat, radix: nat, limit: nat)
    requires radix > 0
    ensures value > limit / radix ==> value * radix > limit
    ensures value <= limit / radix ==> value * radix <= limit
  {
    var q := limit / radix;
    assert limit == q * radix + limit % radix;
    if value > q {
      assert value * radix >= (q + 1) * radix;
    } else {
      assert value * radix <= q * radix;
    }
  }

  // ---- Decimal numerals ----

  function Digit(d: nat): char
    requires d < 10
  {
    '0' + d as char
  }

  function Decimal(n: nat): seq<char> {
    if n < 10 then [Digit(n)] else Decimal(n / 10) + [Digit(n % 10)]
  }

  lemma DigitValue(d: nat)
    requires d < 10
    ensures CharValue(Digit(d)) == d
  {
  }

  /** Reading back the decimal numeral of `n` gives `n`. */
  lemma {:induction false} ValueOfDecimal(n: nat)
    ensures Decimal(n) != [] && AllDigits(Decimal(n), 10) && Value(Decimal(n), 10) == n
    ensures |Decimal(n)| > 1 ==> Decimal(n)[0] != '0'
    decreases n
  {
    if n < 10 {
      DigitValue(n);
      assert Decimal(n)[..0] == [];
    } else {
      ValueOfDecimal(n / 10);
      DigitValue(n % 10);
      var front := Decimal(n / 10);
      assert Decimal(n)[..|front|] == front;
      ValueSnoc(Decimal(n), |front|, 10);
      assert Decimal(n)[..|front| + 1] == Decimal(n);
      if n / 10 < 10 {
        assert Decimal(n)[0] == Digit(n / 10);
      }
    }
  }

  function Pow10(k: nat): nat {
    if k == 0 then 1 else 10 * Pow10(k - 1)
  }

  /** The numeral of `n` has k + 1 digits exactly when 10^k <= n < 10^(k+1), or n is 0 and k too. */
  lemma {:induction false} DecimalLength(n: nat, k: nat)
    ensures n < Pow10(k + 1) && (k > 0 ==> Pow10(k) <= n) <==> |Decimal(n)| == k + 1
    decreases n
  {
    if n < 10 {
      if k > 0 {
        Pow10AtLeast(k);
      }
    } else if k > 0 {
      DecimalLength(n / 10, k - 1);
      Pow10AtLeast(k);
    }
  }

  lemma {:induction false} Pow10AtLeast(k: nat)
    requires k > 0
    ensures Pow10(k) >= 10
  {
    if k > 1 {
      Pow10AtLeast(k - 1);
    }
  }

  lemma {:induction false} Pow10Grows(j: nat, k: nat)
    requires j <= k
    ensures Pow10(j) <= Pow10(k)
  {
    if j < k {
      Pow10Grows(j, k - 1);
    }
  }

  lemma Pow10Table()
    ensures Pow10(1) == 10 && Pow10(2) == 100 && Pow10(3) == 1000 && Pow10(4) == 10000 && Pow10(5) == 100000
    ensures Pow10(6) == 1000000 && Pow10(7) == 10000000 && Pow10(8) == 100000000 && Pow10(9) == 1000000000
    ensures Pow10(10) == 10000000000 && Pow10(18) == 1000000000000000000 && Pow10(19) == 10000000000000000000
    ensures Pow10(20) == 100000000000000000000
  {
    assert Pow10(1) == 10 && Pow10(2) == 100;
    assert Pow10(4) == 10000;
    assert Pow10(6) == 1000000;
    assert Pow10(8) == 100000000;
    assert Pow10(10) == 10000000000;
    assert Pow10(12) == 1000000000000;
    assert Pow10(14) == 100000000000000;
    assert Pow10(16) == 10000000000000000;
    assert Pow10(18) == 1000000000000000000;
  }

  lemma AtMostTwentyDigits(n: nat)
    requires n <= 0xFFFF_FFFF_FFFF_FFFF
    ensures 1 <= |Decimal(n)| <= 20
  {
    var k := |Decimal(n)| - 1;
    DecimalLength(n, k);
    Pow10Table();
    if k >= 20 {
      Pow10Grows(20, k);
    }
  }

  // ---- Numerals in any radix ----

  /** The numeral of `n`, with digits in upper or lower case. */
  function Numeral(n: nat, radix: nat, upper: bool): seq<char>
    requires 2 <= radix <= 16
  {
    var digit := if upper then "0123456789ABCDEF"[n % radix] else "0123456789abcdef"[n % radix];
    if n < radix then [digit] else Numeral(n / radix, radix, upper) + [digit]
  }

  /** Reading back the numeral of `n` gives `n`. */
  lemma {:induction false} ValueOfNumeral(n: nat, radix: nat, upper: bool)
    requires 2 <= radix <= 16
    ensures var s := Numeral(n, radix, upper); s != [] && AllDigits(s, radix) && Value(s, radix) == n
    decreases n
  {
    hide *;
    var s := Numeral(n, radix, upper);
    var front, digit := LastDigit(n, radix, upper);
    if n < radix {
      NoDigits(radix);
    }
    Smaller(n, radix);
    if n >= radix {
      ValueOfNumeral(n / radix, radix, upper);
    }
    assert s[..|front|] == front && s[..|front| + 1] == s;
    ValueSnoc(s, |front|, radix);
  }

  lemma NoDigits(radix: nat)
    ensures AllDigits([], radix) && Value([], radix) == 0
  {
  }

  lemma LastDigit(n: nat, radix: nat, upper: bool) returns (front: seq<char>, digit: char)
    requires 2 <= radix <= 16
    ensures Numeral(n, radix, upper) == front + [digit]
    ensures front == if n < radix then [] else Numeral(n / radix, radix, upper)
    ensures CharValue(digit) == n % radix && IsDigit(digit, radix)
  {
    CharValueOfDigits(n % radix);
    front := if n < radix then [] else Numeral(n / radix, radix, upper);
    digit := if upper then "0123456789ABCDEF"[n % radix] else "0123456789abcdef"[n % radix];
    hide CharValue;
  }

  lemma Smaller(n: nat, radix: nat)
    requires radix >= 2
    ensures n < radix ==> n / radix == 0 && n % radix == n && 0 * radix == 0
    ensures n >= radix ==> n / radix < n
    ensures n == n / radix * radix + n % radix
  {
  }

  /** The decimal numeral among them. */
  lemma {:induction false} DecimalIsNumeral(n: nat, upper: bool)
    ensures Decimal(n) == Numeral(n, 10, upper)
    decreases n
  {
    assert forall d :: 0 <= d < 10 ==> "0123456789"[d] == Digit(d);
    if n >= 10 {
      DecimalIsNumeral(n / 10, upper);
    }
  }

  /** A number below 2^k takes at most k digits. */
  lemma {:induction false} NumeralLength(n: nat, radix: nat, upper: bool, k: nat)
    requires 2 <= radix <= 16 && n < Pow2(k) && k > 0
    ensures 1 <= |Numeral(n, radix, upper)| <= k
    decreases k
  {
    if n >= radix {
      Halved(n, radix, Pow2(k - 1));
      NumeralLength(n / radix, radix, upper, k - 1);
    }
  }

  function Pow2(k: nat): nat {
    if k == 0 then 1 else 2 * Pow2(k - 1)
  }

  lemma Halved(n: nat, radix: nat, p: nat)
    requires 2 <= radix <= n < 2 * p
    ensures 1 <= n / radix < p && p > 1
  {
    var q := n / radix;
    assert n == q * radix + n % radix;
    assert q * radix >= q * 2;
  }

  lemma Pow2Table()
    ensures Pow2(64) == 0x1_0000_0000_0000_0000
  {
    assert Pow2(8) == 256;
    assert Pow2(16) == 65536;
    assert Pow2(24) == 0x100_0000;
    assert Pow2(32) == 0x1_0000_0000;
    assert Pow2(40) == 0x100_0000_0000;
    assert Pow2(48) == 0x1_0000_0000_0000;
    assert Pow2(56) == 0x100_0000_0000_0000;
  }
}
