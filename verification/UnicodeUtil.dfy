/** The scalar transcoder of src/ge/text/UnicodeUtil.cpp and the surrogate helpers of
    inc/ge/text/UnicodeUtil.h. Buffers are read only and appear as sequences; a
    destination list is the sequence it holds. */
module UnicodeUtil {
  import opened Utf

  // ---- inc/ge/text/UnicodeUtil.h ----

  predicate IsHighSurrogate(ch: bv16) {
    ch & 0xFC00 == 0xD800
  }

  function CodePointFromSurrogates(high: bv16, low: bv16): bv32 {
    ((high as bv32) << 10) + (low as bv32) - 0x35FDC00
  }

  function CodePointToSurrogates(ch: bv32): (bv16, bv16) {
    (Low16(0xD7C0 + (ch >> 10)), Low16(0xDC00 + (ch & 0x3FF)))
  }

  predicate IsValidCodePoint(cp: bv32) {
    !(cp >= 0xD800 && cp <= 0xDFFF) && cp <= 0x10FFFF
  }

  lemma SurrogateArithmetic(cp: bv32)
    requires 0x10000 <= cp <= 0x10FFFF
    ensures Low16(0xD7C0 + (cp >> 10)) == 0xD800 | Low16((cp - 0x10000) >> 10)
    ensures Low16(0xDC00 + (cp & 0x3FF)) == 0xDC00 | Low16((cp - 0x10000) & 0x3FF)
  {
  }

  /** The biased additions of the header give the pair section 2.1 of RFC 2781 asks for. */
  lemma SurrogatesOf(cp: bv32)
    requires 0x10000 <= cp <= 0x10FFFF
    ensures var (high, low) := CodePointToSurrogates(cp); Encode16(cp) == [high, low]
  {
    SurrogateArithmetic(cp);
    hide Low16;
  }

  lemma FromSurrogates(high: bv16, low: bv16)
    requires high & 0xFC00 == 0xD800 && low & 0xFC00 == 0xDC00
    ensures CodePointFromSurrogates(high, low) == Decode16Pair(high, low)
  {
  }

  /** Octets by lead octet; -1 marks octets that cannot start a character. */
  function Utf8LenArray(b: bv8): int {
    if b <= 0x7F then 1
    else if b <= 0xC1 then -1
    else if b <= 0xDF then 2
    else if b <= 0xEF then 3
    else if b <= 0xF5 then 4
    else -1
  }

  // ---- One step over a text ----

  /** The first character of a well-formed text, and what it stands for. */
  lemma FrontChar(t: seq<bv8>)
    requires Utf8(t) && t != []
    ensures var n := CharLen(t[0]);
      && 1 <= n <= 4 && n <= |t| && Utf8LenArray(t[0]) == n
      && Utf8Char(t[..n]) && Utf8(t[n..])
      && DecodeAll8(t) == [Decode8(t[..n])] + DecodeAll8(t[n..])
      && IsScalar(Decode8(t[..n]))
      && (n == 4 <==> Decode8(t[..n]) >= 0x10000)
      && (n == 1 <==> Decode8(t[..n]) < 0x80)
  {
    var c := t[..CharLen(t[0])];
    EncodeDecodeChar(c);
    assert |Encode8(Decode8(c))| == |c|;
  }

  lemma Unit16(cp: bv32)
    requires cp < 0x10000
    ensures Encode16(cp) == [Low16(cp)]
  {
  }

  // ---- Conversions ----

  lemma WidenUnit(b: bv8)
    ensures Low16(b as bv32) == b as bv16
  {
  }

  lemma FrontUnits(t: seq<bv8>)
    requires Utf8(t) && t != []
    ensures var n := Utf8LenArray(t[0]);
      && 1 <= n <= 4 && n <= |t| && Utf8(t[n..])
      && EncodeAll16(DecodeAll8(t)) ==
         (if n == 1 then [t[0] as bv16]
          else if n == 2 then [Low16(Bits2(t[0], t[1]))]
          else if n == 3 then [Low16(Bits3(t[0], t[1], t[2]))]
          else var (high, low) := CodePointToSurrogates(Bits4(t[0], t[1], t[2], t[3])); [high, low])
         + EncodeAll16(DecodeAll8(t[n..]))
  {
    FrontChar(t);
    var cp := DecodeAll8(t)[0];
    WidenUnit(t[0]);
    if cp < 0x10000 {
      Unit16(cp);
    } else {
      SurrogatesOf(cp);
    }
    hide Utf8Char, Octets, CharLen, Bits2, Bits3, Bits4, IsScalar, Low16, CodePointToSurrogates, Encode16;
    var rest := DecodeAll8(t[CharLen(t[0])..]);
    assert DecodeAll8(t) == [cp] + rest;
    hide DecodeAll8, EncodeAll16;
    EncodeCons16(cp, rest);
  }

  /** The scalar loop of utf8ToUtf16, from octet `start` on. */
  method Utf8ToUtf16Scalar(buffer: seq<bv8>, start: nat, dest: seq<bv16>) returns (out: seq<bv16>)
    requires start <= |buffer| && Utf8(buffer[start..])
    ensures out == dest + EncodeAll16(DecodeAll8(buffer[start..]))
  {
    hide *;
    out := dest;
    var iter := start;
    while iter < |buffer|
      invariant start <= iter <= |buffer| && Utf8(buffer[iter..])
      invariant out + EncodeAll16(DecodeAll8(buffer[iter..])) == dest + EncodeAll16(DecodeAll8(buffer[start..]))
    {
      ghost var t := buffer[iter..];
      FrontUnits(t);
      var len := Utf8LenArray(buffer[iter]);
      assert t[len..] == buffer[iter + len..];
      if len == 1 {
        out := out + [buffer[iter] as bv16];
      } else if len == 2 {
        out := out + [Low16(Bits2(buffer[iter], buffer[iter + 1]))];
      } else if len == 3 {
        out := out + [Low16(Bits3(buffer[iter], buffer[iter + 1], buffer[iter + 2]))];
      } else if len == 4 {
        var cp := Bits4(buffer[iter], buffer[iter + 1], buffer[iter + 2], buffer[iter + 3]);
        var (high, low) := CodePointToSurrogates(cp);
        out := out + [high, low];
      }
      iter := iter + len;
    }
    DecodeNothing(buffer[iter..]);
  }

  /** The octets the converters store for a code point of each width. */
  function Octets2(cp: bv32): seq<bv8> {
    [Low8(cp >> 6) | 0xC0, Low8(cp & 0x3F) | 0x80]
  }

  function Octets3(cp: bv32): seq<bv8> {
    [Low8(cp >> 12) | 0xE0, Low8((cp >> 6) & 0x3F) | 0x80, Low8(cp & 0x3F) | 0x80]
  }

  function Octets4(cp: bv32): seq<bv8> {
    [Low8(cp >> 18) | 0xF0, Low8((cp >> 12) & 0x3F) | 0x80, Low8((cp >> 6) & 0x3F) | 0x80, Low8(cp & 0x3F) | 0x80]
  }

  lemma FrontValue(t: seq<bv8>)
    requires Utf8(t) && t != []
    ensures var n := Utf8LenArray(t[0]);
      && 1 <= n <= 4 && n <= |t| && Utf8(t[n..])
      && DecodeAll8(t) == [if n == 1 then t[0] as bv32 else if n == 2 then Bits2(t[0], t[1])
                           else if n == 3 then Bits3(t[0], t[1], t[2]) else Bits4(t[0], t[1], t[2], t[3])]
                          + DecodeAll8(t[n..])
  {
    FrontChar(t);
    hide Utf8Char, Octets, CharLen, Bits2, Bits3, Bits4, IsScalar;
  }

  /** The scalar loop of utf8ToUtf32, from octet `start` on. */
  method Utf8ToUtf32Scalar(buffer: seq<bv8>, start: nat, dest: seq<bv32>) returns (out: seq<bv32>)
    requires start <= |buffer| && Utf8(buffer[start..])
    ensures out == dest + DecodeAll8(buffer[start..])
  {
    hide *;
    out := dest;
    var iter := start;
    while iter < |buffer|
      invariant start <= iter <= |buffer| && Utf8(buffer[iter..])
      invariant out + DecodeAll8(buffer[iter..]) == dest + DecodeAll8(buffer[start..])
    {
      ghost var t := buffer[iter..];
      FrontValue(t);
      var len := Utf8LenArray(buffer[iter]);
      assert t[len..] == buffer[iter + len..];
      var cp;
      if len == 1 {
        cp := buffer[iter] as bv32;
      } else if len == 2 {
        cp := Bits2(buffer[iter], buffer[iter + 1]);
      } else if len == 3 {
        cp := Bits3(buffer[iter], buffer[iter + 1], buffer[iter + 2]);
      } else {
        cp := Bits4(buffer[iter], buffer[iter + 1], buffer[iter + 2], buffer[iter + 3]);
      }
      out := out + [cp];
      iter := iter + len;
    }
    DecodeNothing(buffer[iter..]);
  }

  lemma DecodeNothing(t: seq<bv8>)
    requires t == []
    ensures Utf8(t) && DecodeAll8(t) == [] && EncodeAll16(DecodeAll8(t)) == []
  {
  }

  /** The octets the loop stores for a unit that is no high surrogate. */
  function UnitOctets(u: bv16): seq<bv8> {
    var h := u as bv32;
    if u < 0x80 then [Low8(h)] else if u < 0x0800 then Octets2(h) else Octets3(h)
  }

  lemma UnitOctetsEncode(u: bv16)
    ensures UnitOctets(u) == Encode8(u as bv32)
  {
    UnitOrder(u);
    hide Low8;
  }

  lemma PairOctetsEncode(high: bv16, low: bv16)
    requires IsHigh(high) && IsLow(low)
    ensures CodePointFromSurrogates(high, low) == Decode16Pair(high, low)
    ensures Octets4(CodePointFromSurrogates(high, low)) == Encode8(Decode16Pair(high, low))
  {
    SurrogateMask(high);
    SurrogateMask(low);
    FromSurrogates(high, low);
    EncodeDecodePair(high, low);
    hide Low8, Decode16Pair, CodePointFromSurrogates, IsHigh, IsLow, Encode16;
  }

  lemma FrontPair(t: seq<bv16>)
    requires Utf16(t) && t != [] && IsHighSurrogate(t[0])
    ensures |t| >= 2 && Utf16(t[2..])
    ensures EncodeAll8(DecodeAll16(t)) == Octets4(CodePointFromSurrogates(t[0], t[1])) + EncodeAll8(DecodeAll16(t[2..]))
  {
    SurrogateMask(t[0]);
    PairOctetsEncode(t[0], t[1]);
    hide Decode16Pair, CodePointFromSurrogates, IsHigh, IsLow, Encode8, Octets4;
    assert DecodeAll16(t)[1..] == DecodeAll16(t[2..]);
  }

  lemma FrontUnit(t: seq<bv16>)
    requires Utf16(t) && t != [] && !IsHighSurrogate(t[0])
    ensures Utf16(t[1..])
    ensures EncodeAll8(DecodeAll16(t)) == UnitOctets(t[0]) + EncodeAll8(DecodeAll16(t[1..]))
  {
    assert !IsHigh(t[0]) by {
      SurrogateMask(t[0]);
    }
    UnitOctetsEncode(t[0]);
    hide Decode16Pair, IsHigh, IsLow, Encode8, UnitOctets, IsHighSurrogate;
    var cps := DecodeAll16(t);
    assert cps[1..] == DecodeAll16(t[1..]) && cps[0] == t[0] as bv32;
  }

  /** The scalar loop of utf16ToUtf8, from unit `start` on. */
  method Utf16ToUtf8Scalar(buffer: seq<bv16>, start: nat, dest: seq<bv8>) returns (out: seq<bv8>)
    requires start <= |buffer| && Utf16(buffer[start..])
    ensures out == dest + EncodeAll8(DecodeAll16(buffer[start..]))
  {
    hide *;
    out := dest;
    var iter := start;
    while iter < |buffer|
      invariant start <= iter <= |buffer| && Utf16(buffer[iter..])
      invariant out + EncodeAll8(DecodeAll16(buffer[iter..])) == dest + EncodeAll8(DecodeAll16(buffer[start..]))
    {
      ghost var t := buffer[iter..];
      var high := buffer[iter];
      if IsHighSurrogate(high) {
        FrontPair(t);
        assert t[2..] == buffer[iter + 2..];
        iter := iter + 1;
        var low := buffer[iter];
        out := out + Octets4(CodePointFromSurrogates(high, low));
      } else {
        FrontUnit(t);
        assert t[1..] == buffer[iter + 1..];
        out := out + UnitOctets(high);
      }
      iter := iter + 1;
    }
    EncodeNothing(buffer[iter..]);
  }

  lemma EncodeNothing(t: seq<bv16>)
    requires t == []
    ensures Utf16(t) && EncodeAll8(DecodeAll16(t)) == []
  {
  }

  lemma UnitOrder(u: bv16)
    ensures u < 0x80 <==> u as bv32 < 0x80
    ensures u < 0x800 <==> u as bv32 < 0x800
    ensures u as bv32 < 0x10000
    ensures u < 0x800 ==> u & 0xFC00 != 0xD800
  {
  }

  method Utf8FromCodePoint(cp: bv32) returns (temp: seq<bv8>)
    ensures temp == Encode8(cp)
  {
    if cp < 0x0080 {
      temp := [Low8(cp)];
    } else if cp < 0x0800 {
      temp := Octets2(cp);
    } else if cp < 0x10000 {
      temp := Octets3(cp);
    } else {
      temp := Octets4(cp);
    }
  }

  /** The scalar loop of utf32ToUtf8, from unit `start` on. */
  method Utf32ToUtf8Scalar(buffer: seq<bv32>, start: nat, dest: seq<bv8>) returns (out: seq<bv8>)
    requires start <= |buffer|
    ensures out == dest + EncodeAll8(buffer[start..])
  {
    hide Encode8;
    out := dest;
    var iter := start;
    while iter < |buffer|
      invariant start <= iter <= |buffer|
      invariant out + EncodeAll8(buffer[iter..]) == dest + EncodeAll8(buffer[start..])
    {
      var temp := Utf8FromCodePoint(buffer[iter]);
      out := out + temp;
      iter := iter + 1;
    }
  }
}
