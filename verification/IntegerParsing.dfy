/** parseInt32, parseInt64, parseUInt32 and parseUInt64 of src/ge/util. Every intermediate
    has the width of the variable that holds it, so nothing below wraps around. */
module IntegerParsing {
  import opened Numerals

  /** The parsers keep the length in 32 bits: of a longer text they see the front. */
  function Seen(s: seq<char>): seq<char> {
    s[..|s| % 0x1_0000_0000]
  }

  predicate UnsignedNumeral(s: seq<char>, radix: nat) {
    s != [] && AllDigits(s, radix)
  }

  predicate SignedNumeral(s: seq<char>, radix: nat) {
    if s != [] && s[0] == '-' then UnsignedNumeral(s[1..], radix) else UnsignedNumeral(s, radix)
  }

  function SignedValue(s: seq<char>, radix: nat): int
    requires SignedNumeral(s, radix)
  {
    if s[0] == '-' then -(Value(s[1..], radix) as int) else Value(s, radix)
  }

  /** Division as the processor does it: the quotient is cut towards zero. */
  function TruncatingDiv(a: int, b: nat): int
    requires b > 0
  {
    if a >= 0 then a / b else -((-a) / b)
  }

  lemma TruncatingDivRange(a: int, b: nat)
    requires b > 0 && a <= 0
    ensures a <= TruncatingDiv(a, b) <= 0 && TruncatingDiv(a, b) == 0 - (-a) / b
  {
    var q := (-a) / b;
    assert -a == q * b + (-a) % b;
    assert q >= 0;
    TimesAtLeast(q, b);
    assert a == 0 ==> q == 0;
  }

  /** Why the digit loops are right: with the digits of `s` read up to `k` and magnitude
      `limit` allowed, either guard fails exactly when reading on cannot end below `limit`. */
  lemma OneDigit(s: seq<char>, k: nat, radix: nat, limit: nat)
    requires k < |s| && AllDigits(s[..k], radix) && IsDigit(s[k], radix) && radix > 0
    ensures var v, d := Value(s[..k], radix), CharValue(s[k]);
      && AllDigits(s[..k + 1], radix) && Value(s[..k + 1], radix) == v * radix + d
      && (v > limit / radix ==> v * radix > limit)
      && (v <= limit / radix ==> v * radix <= limit)
      && (AllDigits(s, radix) ==> v * radix + d <= Value(s, radix))
  {
    ValueSnoc(s, k, radix);
    GuardsAreExact(Value(s[..k], radix), radix, limit);
    if AllDigits(s, radix) {
      ValueGrows(s, k + 1, radix);
    }
  }

  lemma FirstDigit(s: seq<char>, radix: nat)
    requires s != [] && IsDigit(s[0], radix)
    ensures AllDigits(s[..1], radix) && Value(s[..1], radix) == CharValue(s[0])
  {
    assert s[..0] == [];
    ValueSnoc(s, 0, radix);
  }

  /** The same with the negative accumulator of the signed parsers. */
  lemma OneSignedDigit(s: seq<char>, k: nat, radix: nat, limit: int, result: int)
    requires k < |s| && AllDigits(s[..k], radix) && IsDigit(s[k], radix) && radix > 0 && limit <= 0
    requires result == 0 - Value(s[..k], radix)
    ensures AllDigits(s[..k + 1], radix) && 0 - Value(s[..k + 1], radix) == result * radix - CharValue(s[k])
    ensures result >= TruncatingDiv(limit, radix) ==> limit <= result * radix <= 0
    ensures AllDigits(s, radix) && result < TruncatingDiv(limit, radix) ==> 0 - Value(s, radix) < limit
    ensures AllDigits(s, radix) && result * radix < limit + CharValue(s[k]) ==> 0 - Value(s, radix) < limit
  {
    assert CharValue(s[k]) >= 0;
    hide *;
    OneDigit(s, k, radix, -limit);
    NegatedProduct(result, Value(s[..k], radix), radix);
    TruncatingDivRange(limit, radix);
    SignedGuards(Value(s[..k], radix), Value(s[..k], radix) * radix, (-limit) / radix, -limit, CharValue(s[k]));
  }

  /** Sign changes only: `p` is the product and `q` the quotient. */
  lemma SignedGuards(v: nat, p: nat, q: nat, limit: nat, d: nat)
    requires v <= q ==> p <= limit
    requires v > q ==> p > limit
    ensures 0 - v >= 0 - q ==> 0 - limit <= 0 - p <= 0
    ensures 0 - v < 0 - q ==> 0 - p < 0 - limit
    ensures 0 - p < 0 - limit + d <==> p + d > limit
  {
  }

  lemma NegatedProduct(result: int, v: nat, radix: nat)
    requires result == 0 - v
    ensures result * radix == 0 - v * radix
  {
  }

  /** Whether a variable of the type can hold the number. */
  ghost predicate IsInt32(v: int) { exists x: int32 :: OfInt32(x) == v }

  ghost predicate IsInt64(v: int) { exists x: int64 :: OfInt64(x) == v }

  ghost predicate IsUInt32(v: int) { exists x: uint32 :: OfUInt32(x) == v }

  ghost predicate IsUInt64(v: int) { exists x: uint64 :: OfUInt64(x) == v }

  function OfInt32(x: int32): int { x as int }

  function OfInt64(x: int64): int { x as int }

  function OfUInt32(x: uint32): int { x as int }

  function OfUInt64(x: uint64): int { x as int }

  lemma HeldRanges(v: int)
    ensures IsInt32(v) <==> -0x8000_0000 <= v <= 0x7FFF_FFFF
    ensures IsInt64(v) <==> -0x8000_0000_0000_0000 <= v <= 0x7FFF_FFFF_FFFF_FFFF
    ensures IsUInt32(v) <==> 0 <= v <= 0xFFFF_FFFF
    ensures IsUInt64(v) <==> 0 <= v <= 0xFFFF_FFFF_FFFF_FFFF
  {
    if -0x8000_0000 <= v <= 0x7FFF_FFFF {
      assert OfInt32(v as int32) == v;
    }
    if -0x8000_0000_0000_0000 <= v <= 0x7FFF_FFFF_FFFF_FFFF {
      assert OfInt64(v as int64) == v;
    }
    if 0 <= v <= 0xFFFF_FFFF {
      assert OfUInt32(v as uint32) == v;
    }
    if 0 <= v <= 0xFFFF_FFFF_FFFF_FFFF {
      assert OfUInt64(v as uint64) == v;
    }
  }

  lemma SignedRange(s: seq<char>, radix: nat)
    ensures SignedNumeral(s, radix) ==>
      && (IsInt32(SignedValue(s, radix)) <==> -0x8000_0000 <= SignedValue(s, radix) <= 0x7FFF_FFFF)
      && (IsInt64(SignedValue(s, radix)) <==> -0x8000_0000_0000_0000 <= SignedValue(s, radix) <= 0x7FFF_FFFF_FFFF_FFFF)
  {
    if SignedNumeral(s, radix) {
      hide *;
      HeldRanges(SignedValue(s, radix));
    }
  }

  lemma UnsignedRange(s: seq<char>, radix: nat)
    ensures AllDigits(s, radix) ==> (IsUInt32(Value(s, radix)) <==> Value(s, radix) <= 0xFFFF_FFFF)
  {
    if AllDigits(s, radix) {
      hide *;
      HeldRanges(Value(s, radix));
    }
  }

  lemma NoNumeral(s: seq<char>, radix: nat)
    requires s == [] || s == ['-']
    ensures !SignedNumeral(s, radix)
  {
  }

  /** `t` is what follows the sign. */
  lemma Unsigned(s: seq<char>, radix: nat, t: seq<char>)
    requires s != [] && t != [] && t == if s[0] == '-' then s[1..] else s
    ensures SignedNumeral(s, radix) <==> AllDigits(t, radix)
    ensures SignedNumeral(s, radix) ==>
      SignedValue(s, radix) == if s[0] == '-' then 0 - Value(t, radix) else Value(t, radix)
  {
  }

  /** parseInt32: the text is accepted exactly when it is a numeral in the radix whose value
      an int32 holds, and that value is returned. */
  method ParseInt32(strRef: seq<char>, radix: nat) returns (value: int32, ok: bool)
    requires 2 <= radix <= 16
    ensures ok <==> SignedNumeral(Seen(strRef), radix) && IsInt32(SignedValue(Seen(strRef), radix))
    ensures value as int == if ok then SignedValue(Seen(strRef), radix) else 0
  {
    hide Seen, SignedNumeral, SignedValue, Value, TruncatingDiv, IsInt32, IsInt64;
    var s := Seen(strRef);
    SignedRange(s, radix);
    if |s| == 0 {
      NoNumeral(s, radix);
      return 0, false;
    }
    var result: int32, negative, i := 0, false, 0;
    var limit: int32 := -0x7FFF_FFFF;
    if s[0] == '-' {
      if |s| == 1 {
        NoNumeral(s, radix);
        return 0, false;
      }
      negative := true;
      limit := -0x8000_0000;
      i := 1;
    }
    ghost var start, t := i, s[i..];
    Unsigned(s, radix, t);
    TruncatingDivRange(limit as int, radix);
    var multmin := TruncatingDiv(limit as int, radix) as int32;
    var digit := CharValue(s[i]) as int32;
    if digit < 0 || digit as int >= radix {
      assert !IsDigit(t[0], radix);
      return 0, false;
    }
    result := -digit;
    FirstDigit(t, radix);
    i := i + 1;
    while i < |s|
      invariant start < i <= |s|
      invariant AllDigits(t[..i - start], radix) && result as int == 0 - Value(t[..i - start], radix)
      invariant limit <= result <= 0
    {
      digit := CharValue(s[i]) as int32;
      if digit < 0 || digit as int >= radix {
        assert !IsDigit(t[i - start], radix);
        return 0, false;
      }
      OneSignedDigit(t, i - start, radix, limit as int, result as int);
      if result < multmin {
        return 0, false;
      }
      result := result * radix as int32;
      if result < limit + digit {
        return 0, false;
      }
      result := result - digit;
      i := i + 1;
    }
    assert t[..|t|] == t;
    ok := true;
    value := if negative then result else -result;
  }

  /** parseInt64: the text is accepted exactly when it is a numeral in the radix whose value
      an int64 holds, and that value is returned. */
  method ParseInt64(strRef: seq<char>, radix: nat) returns (value: int64, ok: bool)
    requires 2 <= radix <= 16
    ensures ok <==> SignedNumeral(Seen(strRef), radix) && IsInt64(SignedValue(Seen(strRef), radix))
    ensures value as int == if ok then SignedValue(Seen(strRef), radix) else 0
  {
    hide Seen, SignedNumeral, SignedValue, Value, TruncatingDiv, IsInt32, IsInt64;
    var s := Seen(strRef);
    SignedRange(s, radix);
    if |s| == 0 {
      NoNumeral(s, radix);
      return 0, false;
    }
    var result: int64, negative, i := 0, false, 0;
    var limit: int64 := -0x7FFF_FFFF_FFFF_FFFF;
    if s[0] == '-' {
      if |s| == 1 {
        NoNumeral(s, radix);
        return 0, false;
      }
      negative := true;
      limit := -0x8000_0000_0000_0000;
      i := 1;
    }
    ghost var start, t := i, s[i..];
    Unsigned(s, radix, t);
    TruncatingDivRange(limit as int, radix);
    var multmin := TruncatingDiv(limit as int, radix) as int64;
    var digit := CharValue(s[i]) as int64;
    if digit < 0 || digit as int >= radix {
      assert !IsDigit(t[0], radix);
      return 0, false;
    }
    result := -digit;
    FirstDigit(t, radix);
    i := i + 1;
    while i < |s|
      invariant start < i <= |s|
      invariant AllDigits(t[..i - start], radix) && result as int == 0 - Value(t[..i - start], radix)
      invariant limit <= result <= 0
    {
      digit := CharValue(s[i]) as int64;
      if digit < 0 || digit as int >= radix {
        assert !IsDigit(t[i - start], radix);
        return 0, false;
      }
      OneSignedDigit(t, i - start, radix, limit as int, result as int);
      if result < multmin {
        return 0, false;
      }
      result := result * radix as int64;
      if result < limit + digit {
        return 0, false;
      }
      result := result - digit;
      i := i + 1;
    }
    assert t[..|t|] == t;
    ok := true;
    value := if negative then result else -result;
  }

  /** A table value stored in an unsigned variable of the given modulus. */
  function ToUnsigned(x: int, modulus: nat): nat
    requires -1 <= x < modulus && modulus > 0
  {
    if x < 0 then modulus - 1 else x
  }

  /** parseUInt32: the same for unsigned numerals. */
  method ParseUInt32(strRef: seq<char>, radix: nat) returns (value: uint32, ok: bool)
    requires 2 <= radix <= 16
    ensures ok <==> UnsignedNumeral(Seen(strRef), radix) && IsUInt32(Value(Seen(strRef), radix))
    ensures value as int == if ok then Value(Seen(strRef), radix) else 0
  {
    hide Seen, Value, CharValue, IsUInt32;
    var s := Seen(strRef);
    UnsignedRange(s, radix);
    if |s| == 0 {
      return 0, false;
    }
    var multmin: uint32 := 0xFFFF_FFFF / radix as uint32;
    var result: uint32 := ToUnsigned(CharValue(s[0]), 0x1_0000_0000) as uint32;
    if result as int >= radix {
      assert !IsDigit(s[0], radix);
      return 0, false;
    }
    FirstDigit(s, radix);
    var i := 1;
    while i < |s|
      invariant 0 < i <= |s|
      invariant AllDigits(s[..i], radix) && result as int == Value(s[..i], radix)
      invariant result as int <= 0xFFFF_FFFF
    {
      var digit: uint32 := ToUnsigned(CharValue(s[i]), 0x1_0000_0000) as uint32;
      if digit as int >= radix {
        assert !IsDigit(s[i], radix);
        return 0, false;
      }
      OneDigit(s, i, radix, 0xFFFF_FFFF);
      if result > multmin {
        return 0, false;
      }
      result := result * radix as uint32;
      if result > 0xFFFF_FFFF - digit {
        return 0, false;
      }
      result := result + digit as uint32;
      i := i + 1;
    }
    assert s[..|s|] == s;
    return result, true;
  }

  /** parseUInt64: its second guard compares with `guardMax`, which the code takes from 32 bits
      (UINT32_MAX) and which is meant to be UINT64_MAX; the largest number it accepts is exactly
      that guard. */
  method ParseUInt64(strRef: seq<char>, radix: nat, guardMax: uint64) returns (value: uint64, ok: bool)
    requires 2 <= radix <= 16 && (guardMax == 0xFFFF_FFFF || guardMax == 0xFFFF_FFFF_FFFF_FFFF)
    ensures ok <==> UnsignedNumeral(Seen(strRef), radix) && Value(Seen(strRef), radix) <= guardMax as int
    ensures value as int == if ok then Value(Seen(strRef), radix) else 0
  {
    hide Seen, Value, CharValue;
    var s := Seen(strRef);
    if |s| == 0 {
      return 0, false;
    }
    var multmin: uint64 := 0xFFFF_FFFF_FFFF_FFFF / radix as uint64;
    var result: uint64 := ToUnsigned(CharValue(s[0]), 0x1_0000_0000_0000_0000) as uint64;
    if result as int >= radix {
      assert !IsDigit(s[0], radix);
      return 0, false;
    }
    FirstDigit(s, radix);
    var i := 1;
    while i < |s|
      invariant 0 < i <= |s|
      invariant AllDigits(s[..i], radix) && result as int == Value(s[..i], radix)
      invariant result as int <= guardMax as int
    {
      var digit: uint32 := ToUnsigned(CharValue(s[i]), 0x1_0000_0000) as uint32;
      if digit as int >= radix {
        assert !IsDigit(s[i], radix);
        return 0, false;
      }
      OneDigit(s, i, radix, 0xFFFF_FFFF_FFFF_FFFF);
      if result > multmin {
        return 0, false;
      }
      result := result * radix as uint64;
      if result > guardMax - digit as uint64 {
        return 0, false;
      }
      result := result + digit as uint64;
      i := i + 1;
    }
    assert s[..|s|] == s;
    return result, true;
  }

  /** The numeral of the first number that parseUInt64 as written refuses though a uint64 holds
      it. */
  method RefusesAboveUInt32() returns (value: uint64, ok: bool)
    ensures var s := Decimal(4294967296);
      UnsignedNumeral(Seen(s), 10) && Value(Seen(s), 10) == 4294967296 && IsUInt64(4294967296)
    ensures !ok
  {
    hide Decimal, Value, IsUInt64;
    HeldRanges(4294967296);
    DecimalIsRead(4294967296);
    value, ok := ParseUInt64(Decimal(4294967296), 10, 0xFFFF_FFFF);
  }

  /** A text that a 32-bit length can count is seen whole, and of any other a front that is shorter
      by a multiple of 2^32. */
  lemma SeenIsFront(s: seq<char>)
    ensures Seen(s) <= s && |Seen(s)| <= 0xFFFF_FFFF
    ensures |s| <= 0xFFFF_FFFF ==> Seen(s) == s
    ensures (|s| - |Seen(s)|) % 0x1_0000_0000 == 0
  {
    var q := |s| / 0x1_0000_0000;
    assert |s| - |Seen(s)| == q * 0x1_0000_0000;
    assert s[..|s|] == s;
  }

  /** Printing a number in decimal and parsing the numeral gives the number back. */
  lemma DecimalIsRead(n: nat)
    requires IsUInt64(n)
    ensures Seen(Decimal(n)) == Decimal(n)
    ensures UnsignedNumeral(Decimal(n), 10) && Value(Decimal(n), 10) == n
    ensures SignedNumeral(Decimal(n), 10) && SignedValue(Decimal(n), 10) == n
  {
    hide Decimal, Value, Seen, IsUInt64;
    HeldRanges(n);
    ValueOfDecimal(n);
    AtMostTwentyDigits(n);
    SeenIsFront(Decimal(n));
    assert IsDigit(Decimal(n)[0], 10);
  }

  // ---- Numerals in every radix ----

  /** The text of a number: its numeral, behind a minus sign if it is negative. */
  function Written(x: int, radix: nat, upper: bool): seq<char>
    requires 2 <= radix <= 16
  {
    if x < 0 then "-" + Numeral(-x, radix, upper) else Numeral(x, radix, upper)
  }

  lemma WrittenIsRead(x: int, radix: nat, upper: bool)
    requires 2 <= radix <= 16 && (IsInt64(x) || IsUInt64(x))
    ensures var s := Written(x, radix, upper);
      && Seen(s) == s && SignedNumeral(s, radix) && SignedValue(s, radix) == x
      && (x >= 0 ==> UnsignedNumeral(s, radix) && Value(s, radix) == x)
  {
    hide Numeral, Value, Seen, IsInt64, IsUInt64, Pow2;
    HeldRanges(x);
    var n := if x < 0 then -x else x;
    var s, t := Written(x, radix, upper), Numeral(n, radix, upper);
    ValueOfNumeral(n, radix, upper);
    Pow2Table();
    NumeralLength(n, radix, upper, 64);
    SeenIsFront(s);
    assert IsDigit(t[0], radix);
    assert x < 0 ==> s[1..] == t;
  }

  /** Every value of the four types is read back from its text in every radix, in either case; with
      the guard as written, only those of 32 bits. */
  method Int32ReadsBack(x: int32, radix: nat, upper: bool) returns (value: int32, ok: bool)
    requires 2 <= radix <= 16
    ensures ok && value == x
  {
    hide *;
    OfTheirTypes(x, x as int64, 0, 0);
    WrittenIsRead(x as int, radix, upper);
    value, ok := ParseInt32(Written(x as int, radix, upper), radix);
  }

  method Int64ReadsBack(x: int64, radix: nat, upper: bool) returns (value: int64, ok: bool)
    requires 2 <= radix <= 16
    ensures ok && value == x
  {
    hide *;
    OfTheirTypes(0, x, 0, 0);
    WrittenIsRead(x as int, radix, upper);
    value, ok := ParseInt64(Written(x as int, radix, upper), radix);
  }

  method UInt32ReadsBack(x: uint32, radix: nat, upper: bool) returns (value: uint32, ok: bool)
    requires 2 <= radix <= 16
    ensures ok && value == x
  {
    hide *;
    OfTheirTypes(0, 0, x, x as uint64);
    WrittenIsRead(x as int, radix, upper);
    value, ok := ParseUInt32(Written(x as int, radix, upper), radix);
  }

  method UInt64ReadsBack(x: uint64, radix: nat, upper: bool, guardMax: uint64) returns (value: uint64, ok: bool)
    requires 2 <= radix <= 16 && (guardMax == 0xFFFF_FFFF || guardMax == 0xFFFF_FFFF_FFFF_FFFF)
    ensures ok <==> x <= guardMax
    ensures ok ==> value == x
  {
    hide *;
    OfTheirTypes(0, 0, 0, x);
    WrittenIsRead(x as int, radix, upper);
    value, ok := ParseUInt64(Written(x as int, radix, upper), radix, guardMax);
  }

  lemma OfTheirTypes(a: int32, b: int64, c: uint32, d: uint64)
    ensures IsInt32(a as int) && IsInt64(b as int) && IsUInt32(c as int) && IsUInt64(d as int)
  {
    HeldRanges(a as int);
    HeldRanges(b as int);
    HeldRanges(c as int);
    HeldRanges(d as int);
  }
}
