/** The decimal printers of src/ge/util/UInt32.cpp and UInt64.cpp. Shifts to the left are
    products with a power of two in the width of the variable, so none of them may overflow. */
module IntegerPrinting {
  import opened Basics
  import opened Numerals

  /** A printed length, or where the printer leaves its data: past the end of the size table, or
      with a store to this index, which its buffer does not have. */
  datatype Printed = Length(n: nat) | OffTable | StoresAt(index: nat)

  /** Tables g_digitTens and g_digitOnes of src/ge/util/UtilData.cpp. */
  function DigitTens(r: nat): char
    requires r < 100
  {
    Digit(r / 10)
  }

  function DigitOnes(r: nat): char
    requires r < 100
  {
    Digit(r % 10)
  }

  // ---- Sizes ----

  /** Table uint32_base10SizeTable with its last entry: 2147483647 as written, and meant to be
      4294967295. */
  function SizeTable(last: uint32): seq<uint32> {
    [9, 99, 999, 9999, 99999, 999999, 9999999, 99999999, 999999999, last]
  }

  lemma SizeTableIsPow10(i: nat, last: uint32)
    requires i < 9
    ensures SizeTable(last)[i] as int == Pow10(i + 1) - 1
  {
    Pow10Table();
  }

  /** uint32_base10Size: the number of digits, unless the search runs past the table, which it
      does exactly for values above the last entry. */
  method UInt32Base10Size(value: uint32, last: uint32) returns (size: Printed)
    requires last == 2147483647 || last == 4294967295
    ensures size == if value <= last then Length(|Decimal(value as int)|) else OffTable
  {
    var i := 0;
    while i < 10
      invariant i <= 10
      invariant i > 0 ==> SizeTable(last)[i - 1] < value
    {
      if i < 9 {
        SizeTableIsPow10(i, last);
      }
      if i > 0 {
        SizeTableIsPow10(i - 1, last);
      }
      if value <= SizeTable(last)[i] {
        Pow10Table();
        DecimalLength(value as int, i);
        return Length(i + 1);
      }
      i := i + 1;
    }
    return OffTable;
  }

  /** uint64_base10Size: the number of digits, but never more than 19. */
  method UInt64Base10Size(value: uint64) returns (size: nat)
    ensures size == if value < 10000000000000000000 then |Decimal(value as int)| else 19
    ensures value >= 10000000000000000000 ==> |Decimal(value as int)| == 20
  {
    hide Decimal;
    var magnitude: uint64 := 10;
    Pow10Table();
    for i := 1 to 19
      invariant magnitude as int == Pow10(i)
      invariant i > 1 ==> Pow10(i - 1) <= value as int
    {
      if value < magnitude {
        DecimalLength(value as int, i - 1);
        return i;
      }
      Pow10Grows(i, 18);
      magnitude := magnitude * 10;
    }
    hide Pow10;
    DecimalLength(value as int, 18);
    DecimalLength(value as int, 19);
    return 19;
  }

  // ---- Digits ----

  /** The shifts add up to a hundred times the quotient, and what is left are two digits. */
  lemma TwoDigits(v: nat)
    requires v >= 100
    ensures var q := v / 100; var r := v - (q * 64 + q * 32 + q * 4);
      && 0 <= r < 100 && r == v % 100
      && Decimal(v) == Decimal(q) + [DigitTens(r), DigitOnes(r)]
  {
    var q, r := v / 100, v % 100;
    assert v / 10 / 10 == q && v / 10 % 10 == r / 10 && v % 10 == r % 10;
    assert Decimal(v) == Decimal(v / 10) + [Digit(v % 10)];
    assert Decimal(v / 10) == Decimal(q) + [Digit(v / 10 % 10)];
  }

  /** Below 65536 a product and a shift divide by ten. */
  lemma ShiftedProduct(v: nat)
    requires v < 65536
    ensures v * 52429 < 0x1_0000_0000 && v * 52429 / 524288 == v / 10
    ensures v - (v / 10 * 8 + v / 10 * 2) == v % 10
  {
    var k, d := v / 10, v % 10;
    assert v * 52429 == 524288 * k + (2 * k + 52429 * d);
  }

  lemma OneDigit(v: nat)
    ensures Decimal(v) == (if v < 10 then [] else Decimal(v / 10)) + [Digit(v % 10)]
  {
  }

  // ---- One turn of the digit loops ----

  /** Of `numeral`, what stands for `value` is still to be stored, in front of `charPos`; the
      buffer has room for all digits but `missing`. */
  predicate Printing(s: seq<char>, was: seq<char>, numeral: seq<char>, value: nat, charPos: nat, end: nat, missing: nat)
  {
    && charPos <= end <= |s| == |was|
    && |Decimal(value)| == charPos + missing && |numeral| == end + missing
    && numeral == Decimal(value) + s[charPos..end] && s[end..] == was[end..]
  }

  lemma NothingPrinted(s: seq<char>, value: nat, end: nat, missing: nat)
    requires end <= |s| && |Decimal(value)| == end + missing
    ensures Printing(s, s, Decimal(value), value, end, end, missing)
  {
    hide Decimal;
    assert Decimal(value) + s[end..end] == Decimal(value);
  }

  lemma TwoPrinted(s: seq<char>, was: seq<char>, numeral: seq<char>, value: nat, charPos: nat, end: nat, missing: nat)
    requires Printing(s, was, numeral, value, charPos, end, missing) && value >= 65536 && missing <= 1
    ensures var q := value / 100;
      var r := value - (q * 64 + q * 32 + q * 4);
      && 0 <= r < 100 && 2 <= charPos <= |s|
      && Printing(s[charPos - 1 := DigitOnes(r)][charPos - 2 := DigitTens(r)], was, numeral, q, charPos - 2, end, missing)
  {
    TwoDigits(value);
    FiveDigits(value / 100);
    hide Decimal, DigitOnes, DigitTens;
    var q := value / 100;
    var r := value - (q * 64 + q * 32 + q * 4);
    StoredInFront(s, charPos - 2, end, [DigitTens(r), DigitOnes(r)],
      s[charPos - 1 := DigitOnes(r)][charPos - 2 := DigitTens(r)]);
    Regroup(Decimal(q), [DigitTens(r), DigitOnes(r)], s[charPos..end]);
  }

  lemma StoredInFront(s: seq<char>, at: nat, end: nat, two: seq<char>, s': seq<char>)
    requires at + |two| <= end <= |s| && |s'| == |s|
    requires s' == s[..at] + two + s[at + |two|..]
    ensures s'[at..end] == two + s[at + |two|..end] && s'[end..] == s[end..]
  {
  }

  lemma OnePrinted(s: seq<char>, was: seq<char>, numeral: seq<char>, value: nat, charPos: nat, end: nat, missing: nat)
    requires Printing(s, was, numeral, value, charPos, end, missing) && missing <= 1
    ensures charPos == 0 ==> missing == 1 && s == numeral[1..] + was[end..]
    ensures charPos <= |s|
    ensures charPos > 0 && value >= 10 ==>
      Printing(s[charPos - 1 := Digit(value % 10)], was, numeral, value / 10, charPos - 1, end, missing)
    ensures charPos > 0 && value < 10 ==>
      missing == 0 && s[charPos - 1 := Digit(value % 10)] == numeral + was[end..]
  {
    OneDigit(value);
    DecimalNotEmpty(value / 10);
    hide Decimal, Digit;
    var d := [Digit(value % 10)];
    if charPos == 0 {
      assert numeral[1..] == s[..end] && s == s[..end] + s[end..];
    } else {
      var s' := s[charPos - 1 := Digit(value % 10)];
      StoredInFront(s, charPos - 1, end, d, s');
      if value >= 10 {
        Regroup(Decimal(value / 10), d, s[charPos..end]);
      } else {
        assert s' == s'[..end] + s'[end..];
      }
    }
  }

  /** uint32ToBuffer_base10: with enough room the numeral and nothing else is written; the needed
      length is returned either way. Values the size table does not cover leave the table. */
  method UInt32ToBuffer(buffer: array<char>, bufferLen: nat, value: uint32, last: uint32) returns (printed: Printed)
    requires bufferLen <= buffer.Length
    requires last == 2147483647 || last == 4294967295
    modifies buffer
    ensures value > last ==> printed == OffTable && buffer[..] == old(buffer[..])
    ensures value <= last ==> printed == Length(|Decimal(value as int)|)
    ensures value <= last && |Decimal(value as int)| > bufferLen ==> buffer[..] == old(buffer[..])
    ensures value <= last && |Decimal(value as int)| <= bufferLen ==>
      buffer[..] == Decimal(value as int) + old(buffer[..])[|Decimal(value as int)|..]
  {
    hide Decimal, Digit, DigitTens, DigitOnes, Printing;
    var size := UInt32Base10Size(value, last);
    if size.OffTable? {
      return OffTable;
    }
    var expectedLength := size.n;
    if expectedLength > bufferLen {
      return Length(expectedLength);
    }
    ghost var was, numeral := buffer[..], Decimal(value as int);
    ghost var end: nat, missing: nat := expectedLength, |numeral| - expectedLength;
    NothingPrinted(was, value as int, end, missing);
    var charPos: nat, value, q, r := expectedLength, value, 0, 0;
    while value >= 65536
      invariant Printing(buffer[..], was, numeral, value as int, charPos, end, missing)
    {
      TwoPrinted(buffer[..], was, numeral, value as int, charPos, end, missing);
      TwoDigits(value as int);
      q := value / 100;
      r := value - ((q * 64) + (q * 32) + (q * 4));
      value := q;
      charPos := charPos - 1;
      buffer[charPos] := DigitOnes(r as int);
      charPos := charPos - 1;
      buffer[charPos] := DigitTens(r as int);
    }
    while true
      invariant value < 65536
      invariant Printing(buffer[..], was, numeral, value as int, charPos, end, missing)
      decreases value
    {
      ShiftedProduct(value as int);
      OnePrinted(buffer[..], was, numeral, value as int, charPos, end, missing);
      q := (value * 52429) / 524288;
      r := value - ((q * 8) + (q * 2));
      charPos := charPos - 1;
      buffer[charPos] := Digit(r as int);
      value := q;
      if value == 0 {
        break;
      }
    }
    return Length(expectedLength);
  }

  const TWENTY_DIGITS: uint64 := 10000000000000000000

  /** uint64ToBuffer_base10: the same below 10^19. A value of twenty digits is taken to have
      nineteen: those are stored, and then its first digit at `--charPos` of a 32-bit 0, which is in
      front of the buffer only where pointers have 32 bits too. */
  method UInt64ToBuffer(buffer: array<char>, bufferLen: nat, value: uint64) returns (printed: Printed)
    requires bufferLen <= buffer.Length && bufferLen <= 0xFFFF_FFFF
    modifies buffer
    ensures value < TWENTY_DIGITS ==> printed == Length(|Decimal(value as int)|)
    ensures value < TWENTY_DIGITS && |Decimal(value as int)| > bufferLen ==> buffer[..] == old(buffer[..])
    ensures value < TWENTY_DIGITS && |Decimal(value as int)| <= bufferLen ==>
      buffer[..] == Decimal(value as int) + old(buffer[..])[|Decimal(value as int)|..]
    ensures value >= TWENTY_DIGITS && bufferLen < 19 ==> printed == Length(19) && buffer[..] == old(buffer[..])
    ensures value >= TWENTY_DIGITS && bufferLen >= 19 ==> printed == StoresAt(0xFFFF_FFFF)
    ensures value >= TWENTY_DIGITS && bufferLen >= 19 ==>
      buffer[..] == Decimal(value as int)[1..] + old(buffer[..])[19..]
  {
    hide Decimal, Digit, DigitTens, DigitOnes, Printing;
    var expectedLength := UInt64Base10Size(value);
    if expectedLength > bufferLen {
      return Length(expectedLength);
    }
    ghost var was, numeral := buffer[..], Decimal(value as int);
    ghost var end: nat, missing: nat := expectedLength, |numeral| - expectedLength;
    NothingPrinted(was, value as int, end, missing);
    var charPos: nat, value, q, r := expectedLength, value, 0, 0;
    while value >= 65536
      invariant Printing(buffer[..], was, numeral, value as int, charPos, end, missing)
    {
      TwoPrinted(buffer[..], was, numeral, value as int, charPos, end, missing);
      TwoDigits(value as int);
      q := value / 100;
      r := value - ((q * 64) + (q * 32) + (q * 4));
      value := q;
      charPos := charPos - 1;
      buffer[charPos] := DigitOnes(r as int);
      charPos := charPos - 1;
      buffer[charPos] := DigitTens(r as int);
    }
    while true
      invariant value < 65536
      invariant Printing(buffer[..], was, numeral, value as int, charPos, end, missing)
      decreases value
    {
      ShiftedProduct(value as int);
      OnePrinted(buffer[..], was, numeral, value as int, charPos, end, missing);
      q := (value * 52429) / 524288;
      r := value - ((q * 8) + (q * 2));
      if charPos == 0 {
        return StoresAt(0xFFFF_FFFF);
      }
      charPos := charPos - 1;
      buffer[charPos] := Digit(r as int);
      value := q;
      if value == 0 {
        break;
      }
    }
    return Length(expectedLength);
  }

  lemma FiveDigits(q: nat)
    requires q >= 100
    ensures |Decimal(q)| >= 3
  {
    DecimalNotEmpty(q / 100);
    TwoDigits(q);
  }

  lemma DecimalNotEmpty(n: nat)
    ensures |Decimal(n)| >= 1
  {
  }
}
