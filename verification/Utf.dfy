/** The encoding forms the transcoder is written for, independent of its code:
    UTF-8 as sections 3 and 4 of RFC 3629 define it, UTF-16 as sections 2.1 and 2.2
    of RFC 2781 do. */
module Utf {

  predicate IsScalar(cp: bv32) {
    cp <= 0x10FFFF && !(0xD800 <= cp <= 0xDFFF)
  }

  ghost predicate AllScalar(cps: seq<bv32>) {
    forall k :: 0 <= k < |cps| ==> IsScalar(cps[k])
  }

  // ---- UTF-8: the grammar of section 4 of RFC 3629 ----

  predicate Tail(b: bv8) {
    0x80 <= b <= 0xBF
  }

  predicate Utf8Char(s: seq<bv8>) {
    if |s| == 1 then s[0] <= 0x7F
    else if |s| == 2 then 0xC2 <= s[0] <= 0xDF && Tail(s[1])
    else if |s| == 3 then
      && (|| (s[0] == 0xE0 && 0xA0 <= s[1] <= 0xBF)
          || (0xE1 <= s[0] <= 0xEC && Tail(s[1]))
          || (s[0] == 0xED && 0x80 <= s[1] <= 0x9F)
          || (0xEE <= s[0] <= 0xEF && Tail(s[1])))
      && Tail(s[2])
    else
      && |s| == 4
      && (|| (s[0] == 0xF0 && 0x90 <= s[1] <= 0xBF)
          || (0xF1 <= s[0] <= 0xF3 && Tail(s[1]))
          || (s[0] == 0xF4 && 0x80 <= s[1] <= 0x8F))
      && Tail(s[2]) && Tail(s[3])
  }

  /** A four-byte form of a code point that has a three-byte form: F0 8n in place of En. */
  predicate OverlongQuad(s: seq<bv8>) {
    && |s| == 4
    && s[0] == 0xF0 && 0x80 <= s[1] <= 0x8F
    && Utf8Char([0xE0 | (s[1] & 0x0F), s[2], s[3]])
  }

  /** Octets a character starting with `lead` takes; 0 when nothing starts with it. */
  function CharLen(lead: bv8): nat {
    if lead <= 0x7F then 1
    else if lead < 0xC2 then 0
    else if lead <= 0xDF then 2
    else if lead <= 0xEF then 3
    else if lead <= 0xF4 then 4
    else 0
  }

  /** UTF8-octets = *( UTF8-char ); with `loose`, overlong four-byte forms count too. */
  predicate Octets(s: seq<bv8>, loose: bool)
    decreases |s|
  {
    s == [] ||
    var n := CharLen(s[0]);
    && 0 < n <= |s|
    && (Utf8Char(s[..n]) || (loose && OverlongQuad(s[..n])))
    && Octets(s[n..], loose)
  }

  predicate Utf8(s: seq<bv8>) {
    Octets(s, false)
  }

  // ---- UTF-8: the bit distribution of section 3 of RFC 3629 ----

  function Low8(x: bv32): bv8 {
    (x & 0xFF) as bv8
  }

  function Encode8(cp: bv32): seq<bv8> {
    if cp < 0x80 then [Low8(cp)]
    else if cp < 0x800 then [Low8(cp >> 6) | 0xC0, Low8(cp & 0x3F) | 0x80]
    else if cp < 0x10000 then
      [Low8(cp >> 12) | 0xE0, Low8((cp >> 6) & 0x3F) | 0x80, Low8(cp & 0x3F) | 0x80]
    else
      [Low8(cp >> 18) | 0xF0, Low8((cp >> 12) & 0x3F) | 0x80, Low8((cp >> 6) & 0x3F) | 0x80, Low8(cp & 0x3F) | 0x80]
  }

  function Bits2(a: bv8, b: bv8): bv32 {
    (((a & 0x1F) as bv32) << 6) | ((b & 0x3F) as bv32)
  }

  function Bits3(a: bv8, b: bv8, c: bv8): bv32 {
    (((a & 0x0F) as bv32) << 12) | (((b & 0x3F) as bv32) << 6) | ((c & 0x3F) as bv32)
  }

  function Bits4(a: bv8, b: bv8, c: bv8, d: bv8): bv32 {
    (((a & 0x07) as bv32) << 18) | (((b & 0x3F) as bv32) << 12) | (((c & 0x3F) as bv32) << 6) | ((d & 0x3F) as bv32)
  }

  function Decode8(s: seq<bv8>): bv32
    requires 1 <= |s| <= 4
  {
    if |s| == 1 then s[0] as bv32
    else if |s| == 2 then Bits2(s[0], s[1])
    else if |s| == 3 then Bits3(s[0], s[1], s[2])
    else Bits4(s[0], s[1], s[2], s[3])
  }

  function DecodeAll8(s: seq<bv8>): seq<bv32>
    requires Utf8(s)
    decreases |s|
  {
    if s == [] then []
    else
      var n := CharLen(s[0]);
      [Decode8(s[..n])] + DecodeAll8(s[n..])
  }

  function EncodeAll8(cps: seq<bv32>): seq<bv8> {
    if cps == [] then [] else Encode8(cps[0]) + EncodeAll8(cps[1..])
  }

  // ---- UTF-16: RFC 2781 ----

  predicate IsHigh(u: bv16) {
    0xD800 <= u <= 0xDBFF
  }

  predicate IsLow(u: bv16) {
    0xDC00 <= u <= 0xDFFF
  }

  predicate Utf16(u: seq<bv16>) {
    u == [] ||
    if IsHigh(u[0]) then |u| >= 2 && IsLow(u[1]) && Utf16(u[2..])
    else !IsLow(u[0]) && Utf16(u[1..])
  }

  function Low16(x: bv32): bv16 {
    (x & 0xFFFF) as bv16
  }

  /** Section 2.1: subtract 0x10000 and split the remaining 20 bits. */
  function Encode16(cp: bv32): seq<bv16> {
    if cp < 0x10000 then [Low16(cp)]
    else
      var v := cp - 0x10000;
      [0xD800 | Low16(v >> 10), 0xDC00 | Low16(v & 0x3FF)]
  }

  /** Section 2.2: join the two 10-bit halves and add 0x10000. */
  function Decode16Pair(high: bv16, low: bv16): bv32 {
    ((((high & 0x3FF) as bv32) << 10) | ((low & 0x3FF) as bv32)) + 0x10000
  }

  function DecodeAll16(u: seq<bv16>): seq<bv32>
    requires Utf16(u)
  {
    if u == [] then []
    else if IsHigh(u[0]) then [Decode16Pair(u[0], u[1])] + DecodeAll16(u[2..])
    else [u[0] as bv32] + DecodeAll16(u[1..])
  }

  function EncodeAll16(cps: seq<bv32>): seq<bv16> {
    if cps == [] then [] else Encode16(cps[0]) + EncodeAll16(cps[1..])
  }

  // ---- One character ----

  lemma TailMask(b: bv8)
    ensures Tail(b) <==> b & 0xC0 == 0x80
  {
  }

  lemma Bits1Inverse(a: bv8)
    requires a <= 0x7F
    ensures a as bv32 < 0x80 && Low8(a as bv32) == a
  {
  }

  lemma Bits2Inverse(a: bv8, b: bv8)
    requires 0xC2 <= a <= 0xDF && Tail(b)
    ensures 0x80 <= Bits2(a, b) < 0x800
    ensures Low8(Bits2(a, b) >> 6) | 0xC0 == a && Low8(Bits2(a, b) & 0x3F) | 0x80 == b
  {
  }

  lemma Bits3Inverse(a: bv8, b: bv8, c: bv8)
    requires a & 0xF0 == 0xE0 && b & 0xC0 == 0x80 && c & 0xC0 == 0x80
    ensures var v := Bits3(a, b, c);
      && Low8(v >> 12) | 0xE0 == a && Low8((v >> 6) & 0x3F) | 0x80 == b && Low8(v & 0x3F) | 0x80 == c
  {
  }

  /** Three octets of the right shape form a UTF8-char exactly when the value is at
      least 0x800 and not a surrogate. */
  lemma Bits3Range(a: bv8, b: bv8, c: bv8)
    requires a & 0xF0 == 0xE0 && b & 0xC0 == 0x80 && c & 0xC0 == 0x80
    ensures 0xE0 <= a <= 0xEF && Bits3(a, b, c) < 0x10000
    ensures Bits3(a, b, c) >= 0x800 <==> a != 0xE0 || b >= 0xA0
    ensures 0xD800 <= Bits3(a, b, c) <= 0xDFFF <==> a == 0xED && b > 0x9F
  {
  }

  lemma Bits4Inverse(a: bv8, b: bv8, c: bv8, d: bv8)
    requires a & 0xF8 == 0xF0 && b & 0xC0 == 0x80 && c & 0xC0 == 0x80 && d & 0xC0 == 0x80
    ensures var v := Bits4(a, b, c, d);
      && Low8(v >> 18) | 0xF0 == a && Low8((v >> 12) & 0x3F) | 0x80 == b
      && Low8((v >> 6) & 0x3F) | 0x80 == c && Low8(v & 0x3F) | 0x80 == d
  {
  }

  lemma Bits4Range(a: bv8, b: bv8, c: bv8, d: bv8)
    requires a & 0xF8 == 0xF0 && b & 0xC0 == 0x80 && c & 0xC0 == 0x80 && d & 0xC0 == 0x80
    ensures 0xF0 <= a <= 0xF7
    ensures Bits4(a, b, c, d) >= 0x10000 <==> a != 0xF0 || b >= 0x90
    ensures Bits4(a, b, c, d) <= 0x10FFFF <==> a <= 0xF3 || (a == 0xF4 && b <= 0x8F)
  {
  }

  lemma LeadMask(a: bv8)
    ensures 0xC0 <= a <= 0xDF <==> a & 0xE0 == 0xC0
    ensures 0xE0 <= a <= 0xEF <==> a & 0xF0 == 0xE0
    ensures 0xF0 <= a <= 0xF7 <==> a & 0xF8 == 0xF0
  {
  }

  lemma EncodeDecode3(a: bv8, b: bv8, c: bv8)
    requires Utf8Char([a, b, c])
    ensures IsScalar(Bits3(a, b, c)) && Encode8(Bits3(a, b, c)) == [a, b, c]
  {
    LeadMask(a);
    TailMask(b);
    TailMask(c);
    Bits3Inverse(a, b, c);
    Bits3Range(a, b, c);
    hide Bits3, Low8;
  }

  lemma EncodeDecode4(a: bv8, b: bv8, c: bv8, d: bv8)
    requires Utf8Char([a, b, c, d])
    ensures IsScalar(Bits4(a, b, c, d)) && Encode8(Bits4(a, b, c, d)) == [a, b, c, d]
  {
    LeadMask(a);
    TailMask(b);
    TailMask(c);
    TailMask(d);
    Bits4Inverse(a, b, c, d);
    Bits4Range(a, b, c, d);
    hide Bits4, Low8;
  }

  lemma EncodeDecodeChar(s: seq<bv8>)
    requires Utf8Char(s)
    ensures IsScalar(Decode8(s)) && Encode8(Decode8(s)) == s
  {
    hide Bits2, Bits3, Bits4, Low8;
    if |s| == 1 {
      Bits1Inverse(s[0]);
      assert s == [s[0]];
    } else if |s| == 2 {
      Bits2Inverse(s[0], s[1]);
      assert s == [s[0], s[1]];
    } else if |s| == 3 {
      assert s == [s[0], s[1], s[2]];
      EncodeDecode3(s[0], s[1], s[2]);
    } else {
      assert s == [s[0], s[1], s[2], s[3]];
      EncodeDecode4(s[0], s[1], s[2], s[3]);
    }
  }

  lemma EncodeParts2(cp: bv32)
    requires 0x80 <= cp < 0x800
    ensures var a, b := Low8(cp >> 6) | 0xC0, Low8(cp & 0x3F) | 0x80;
      0xC2 <= a <= 0xDF && Tail(b) && Bits2(a, b) == cp
  {
  }

  lemma EncodeParts3(cp: bv32)
    requires 0x800 <= cp < 0x10000
    ensures var a, b, c := Low8(cp >> 12) | 0xE0, Low8((cp >> 6) & 0x3F) | 0x80, Low8(cp & 0x3F) | 0x80;
      a & 0xF0 == 0xE0 && b & 0xC0 == 0x80 && c & 0xC0 == 0x80 && Bits3(a, b, c) == cp
  {
  }

  lemma EncodeParts4(cp: bv32)
    requires 0x10000 <= cp <= 0x10FFFF
    ensures var a, b, c, d := Low8(cp >> 18) | 0xF0, Low8((cp >> 12) & 0x3F) | 0x80, Low8((cp >> 6) & 0x3F) | 0x80, Low8(cp & 0x3F) | 0x80;
      a & 0xF8 == 0xF0 && b & 0xC0 == 0x80 && c & 0xC0 == 0x80 && d & 0xC0 == 0x80 && Bits4(a, b, c, d) == cp
  {
  }

  lemma DecodeEncodeChar(cp: bv32)
    requires IsScalar(cp)
    ensures Utf8Char(Encode8(cp)) && CharLen(Encode8(cp)[0]) == |Encode8(cp)|
    ensures Decode8(Encode8(cp)) == cp
  {
    var e := Encode8(cp);
    forall k | 0 <= k < |e| ensures Tail(e[k]) <==> e[k] & 0xC0 == 0x80 {
      TailMask(e[k]);
    }
    if cp < 0x80 {
    } else if cp < 0x800 {
      EncodeParts2(cp);
    } else if cp < 0x10000 {
      EncodeParts3(cp);
      Bits3Range(e[0], e[1], e[2]);
    } else {
      EncodeParts4(cp);
      Bits4Range(e[0], e[1], e[2], e[3]);
    }
  }

  lemma SurrogateMask(u: bv16)
    ensures IsHigh(u) <==> u & 0xFC00 == 0xD800
    ensures IsLow(u) <==> u & 0xFC00 == 0xDC00
  {
  }

  lemma SplitPair(cp: bv32)
    requires 0x10000 <= cp <= 0x10FFFF
    ensures var v := cp - 0x10000; var h, l := 0xD800 | Low16(v >> 10), 0xDC00 | Low16(v & 0x3FF);
      h & 0xFC00 == 0xD800 && l & 0xFC00 == 0xDC00 && Decode16Pair(h, l) == cp
  {
  }

  lemma JoinPair(high: bv16, low: bv16)
    requires high & 0xFC00 == 0xD800 && low & 0xFC00 == 0xDC00
    ensures var v := Decode16Pair(high, low) - 0x10000;
      && 0x10000 <= Decode16Pair(high, low) <= 0x10FFFF
      && 0xD800 | Low16(v >> 10) == high && 0xDC00 | Low16(v & 0x3FF) == low
  {
  }

  lemma BmpUnit(cp: bv32)
    requires cp < 0x10000 && IsScalar(cp)
    ensures Low16(cp) as bv32 == cp && !IsHigh(Low16(cp)) && !IsLow(Low16(cp))
  {
  }

  /** What Encode16 yields for one code point is read back as that code point. */
  lemma DecodeEncodeUnit(cp: bv32)
    requires IsScalar(cp)
    ensures var e := Encode16(cp);
      if cp < 0x10000 then |e| == 1 && !IsHigh(e[0]) && !IsLow(e[0]) && e[0] as bv32 == cp
      else |e| == 2 && IsHigh(e[0]) && IsLow(e[1]) && Decode16Pair(e[0], e[1]) == cp
  {
    if cp < 0x10000 {
      BmpUnit(cp);
    } else {
      SplitPair(cp);
      hide Decode16Pair, Low16;
      SurrogateMask(Encode16(cp)[0]);
      SurrogateMask(Encode16(cp)[1]);
    }
  }

  lemma EncodeDecodePair(high: bv16, low: bv16)
    requires IsHigh(high) && IsLow(low)
    ensures 0x10000 <= Decode16Pair(high, low) <= 0x10FFFF
    ensures Encode16(Decode16Pair(high, low)) == [high, low]
  {
    SurrogateMask(high);
    SurrogateMask(low);
    JoinPair(high, low);
  }

  lemma EncodeDecodeBmp(u: bv16)
    requires !IsHigh(u) && !IsLow(u)
    ensures IsScalar(u as bv32) && Encode16(u as bv32) == [u]
  {
  }

  // ---- Whole texts ----

  /** The first character of a well-formed text. */
  lemma FrontCodePoint(s: seq<bv8>) returns (n: nat, cp: bv32)
    requires Utf8(s) && s != []
    ensures n == CharLen(s[0]) && 1 <= n <= |s| && Utf8(s[n..]) && IsScalar(cp) && Encode8(cp) == s[..n]
    ensures DecodeAll8(s) == [cp] + DecodeAll8(s[n..])
  {
    n := CharLen(s[0]);
    cp := Decode8(s[..n]);
    EncodeDecodeChar(s[..n]);
  }

  lemma NoCodePoint(s: seq<bv8>)
    requires s == []
    ensures Utf8(s) && DecodeAll8(s) == [] && EncodeAll8([]) == s && AllScalar([])
  {
  }

  lemma EncodeCons(cp: bv32, rest: seq<bv32>)
    ensures EncodeAll8([cp] + rest) == Encode8(cp) + EncodeAll8(rest)
    ensures IsScalar(cp) && AllScalar(rest) ==> AllScalar([cp] + rest)
  {
    hide IsScalar, Encode8;
    assert ([cp] + rest)[1..] == rest;
  }

  /** Every well-formed text is the encoding of the code points it decodes to. */
  lemma {:induction false} EncodeDecode8(s: seq<bv8>)
    requires Utf8(s)
    ensures AllScalar(DecodeAll8(s)) && EncodeAll8(DecodeAll8(s)) == s
    decreases |s|
  {
    hide *;
    if s == [] {
      NoCodePoint(s);
    } else {
      var n, cp := FrontCodePoint(s);
      EncodeDecode8(s[n..]);
      EncodeCons(cp, DecodeAll8(s[n..]));
      assert s == s[..n] + s[n..];
    }
  }

  lemma DecodeFront8(cp: bv32, rest: seq<bv8>)
    requires IsScalar(cp) && Utf8(rest)
    ensures Utf8(Encode8(cp) + rest) && DecodeAll8(Encode8(cp) + rest) == [cp] + DecodeAll8(rest)
  {
    DecodeEncodeChar(cp);
    hide IsScalar, Encode8, Decode8, Utf8Char, CharLen;
    var e := Encode8(cp);
    assert (e + rest)[..|e|] == e && (e + rest)[|e|..] == rest;
  }

  lemma ScalarSplit(cps: seq<bv32>)
    requires AllScalar(cps) && cps != []
    ensures IsScalar(cps[0]) && AllScalar(cps[1..]) && cps == [cps[0]] + cps[1..]
  {
    hide IsScalar;
  }

  lemma {:induction false} DecodeEncode8(cps: seq<bv32>)
    requires AllScalar(cps)
    ensures Utf8(EncodeAll8(cps)) && DecodeAll8(EncodeAll8(cps)) == cps
  {
    hide *;
    if cps == [] {
      NoCodePoint([]);
    } else {
      ScalarSplit(cps);
      DecodeEncode8(cps[1..]);
      EncodeCons(cps[0], cps[1..]);
      DecodeFront8(cps[0], EncodeAll8(cps[1..]));
    }
  }

  /** The grammar of section 4 generates exactly the encodings of section 3. */
  lemma Utf8IsImage(s: seq<bv8>)
    ensures Utf8(s) <==> exists cps :: AllScalar(cps) && EncodeAll8(cps) == s
  {
    if Utf8(s) {
      EncodeDecode8(s);
    }
    forall cps | AllScalar(cps) && EncodeAll8(cps) == s
      ensures Utf8(s)
    {
      DecodeEncode8(cps);
    }
  }

  lemma FrontCodePoint16(u: seq<bv16>) returns (n: nat, cp: bv32)
    requires Utf16(u) && u != []
    ensures 1 <= n <= |u| && Utf16(u[n..]) && IsScalar(cp) && Encode16(cp) == u[..n]
    ensures DecodeAll16(u) == [cp] + DecodeAll16(u[n..])
  {
    hide Encode16, Decode16Pair, IsHigh, IsLow;
    if IsHigh(u[0]) {
      n, cp := 2, Decode16Pair(u[0], u[1]);
      EncodeDecodePair(u[0], u[1]);
    } else {
      n, cp := 1, u[0] as bv32;
      EncodeDecodeBmp(u[0]);
    }
  }

  lemma NoCodePoint16()
    ensures Utf16([]) && DecodeAll16([]) == [] && EncodeAll16([]) == [] && AllScalar([])
  {
  }

  lemma EncodeCons16(cp: bv32, rest: seq<bv32>)
    ensures EncodeAll16([cp] + rest) == Encode16(cp) + EncodeAll16(rest)
    ensures IsScalar(cp) && AllScalar(rest) ==> AllScalar([cp] + rest)
  {
    hide IsScalar, Encode16;
    assert ([cp] + rest)[1..] == rest;
  }

  lemma DecodeFront16(cp: bv32, rest: seq<bv16>)
    requires IsScalar(cp) && Utf16(rest)
    ensures Utf16(Encode16(cp) + rest) && DecodeAll16(Encode16(cp) + rest) == [cp] + DecodeAll16(rest)
  {
    DecodeEncodeUnit(cp);
    hide IsScalar, Encode16, Decode16Pair, IsHigh, IsLow;
    var e := Encode16(cp);
    assert (e + rest)[|e|..] == rest;
  }

  lemma {:induction false} EncodeDecode16(u: seq<bv16>)
    requires Utf16(u)
    ensures AllScalar(DecodeAll16(u)) && EncodeAll16(DecodeAll16(u)) == u
    decreases |u|
  {
    hide *;
    if u == [] {
      NoCodePoint16();
    } else {
      var n, cp := FrontCodePoint16(u);
      EncodeDecode16(u[n..]);
      EncodeCons16(cp, DecodeAll16(u[n..]));
      assert u == u[..n] + u[n..];
    }
  }

  lemma {:induction false} DecodeEncode16(cps: seq<bv32>)
    requires AllScalar(cps)
    ensures Utf16(EncodeAll16(cps)) && DecodeAll16(EncodeAll16(cps)) == cps
  {
    hide *;
    if cps == [] {
      NoCodePoint16();
    } else {
      ScalarSplit(cps);
      DecodeEncode16(cps[1..]);
      EncodeCons16(cps[0], cps[1..]);
      DecodeFront16(cps[0], EncodeAll16(cps[1..]));
    }
  }

  /** UTF-8 to UTF-16 and back is the identity on every well-formed text. */
  lemma RoundTrip8Via16(s: seq<bv8>)
    requires Utf8(s)
    ensures var u := EncodeAll16(DecodeAll8(s)); Utf16(u) && EncodeAll8(DecodeAll16(u)) == s
  {
    EncodeDecode8(s);
    DecodeEncode16(DecodeAll8(s));
  }

  /** UTF-16 to UTF-8 and back is the identity on every well-formed text. */
  lemma RoundTrip16Via8(u: seq<bv16>)
    requires Utf16(u)
    ensures var s := EncodeAll8(DecodeAll16(u)); Utf8(s) && EncodeAll16(DecodeAll8(s)) == u
  {
    EncodeDecode16(u);
    DecodeEncode8(DecodeAll16(u));
  }

  // ---- Prefixes of single octets ----

  predicate Ascii(s: seq<bv8>) {
    forall k :: 0 <= k < |s| ==> s[k] < 0x80
  }

  function Widen(s: seq<bv8>): (r: seq<bv32>)
    ensures |r| == |s| && forall k :: 0 <= k < |s| ==> r[k] == s[k] as bv32
  {
    if s == [] then [] else [s[0] as bv32] + Widen(s[1..])
  }

  lemma AsciiStep(s: seq<bv8>, loose: bool)
    requires s != [] && s[0] < 0x80
    ensures Octets(s, loose) <==> Octets(s[1..], loose)
    ensures Utf8(s) ==> DecodeAll8(s) == [s[0] as bv32] + DecodeAll8(s[1..])
  {
    assert s[..1] == [s[0]];
  }

  /** A prefix of single octets changes neither acceptance nor what follows it. */
  lemma {:induction false} AsciiPrefix(s: seq<bv8>, n: nat, loose: bool)
    requires n <= |s| && Ascii(s[..n])
    ensures Octets(s, loose) <==> Octets(s[n..], loose)
    ensures Utf8(s) && Utf8(s[n..]) ==> DecodeAll8(s) == Widen(s[..n]) + DecodeAll8(s[n..])
    decreases n
  {
    hide *;
    AsciiFront(s, n);
    if n > 0 {
      AsciiStep(s, loose);
      AsciiStep(s, false);
      AsciiPrefix(s[1..], n - 1, loose);
      AsciiPrefix(s[1..], n - 1, false);
      Utf8IsStrict(s);
      Utf8IsStrict(s[1..]);
      Utf8IsStrict(s[n..]);
    }
  }

  lemma AsciiFront(s: seq<bv8>, n: nat)
    requires n <= |s| && Ascii(s[..n])
    ensures n == 0 ==> s[n..] == s && Widen(s[..n]) == []
    ensures n > 0 ==> s[0] < 0x80 && Ascii(s[1..][..n - 1]) && s[1..][n - 1..] == s[n..]
    ensures n > 0 ==> Widen(s[..n]) == [s[0] as bv32] + Widen(s[1..][..n - 1])
  {
    if n > 0 {
      assert s[0] == s[..n][0];
      assert s[..n][1..] == s[1..][..n - 1];
    }
  }

  lemma Utf8IsStrict(s: seq<bv8>)
    ensures Utf8(s) <==> Octets(s, false)
  {
  }
}
