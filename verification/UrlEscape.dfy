/** escapeUrl and unescapeUrlInPlace of src/ge/http/HttpUtil.cpp: the form
    application/x-www-form-urlencoded of section 17.13.4.1 of HTML 4.01. */
module UrlEscape {

  import opened Basics

  const PERCENT: Byte := 0x25
  const PLUS: Byte := 0x2B
  const SPACE: Byte := 0x20

  /** Table safeUrlChars: letters and digits. */
  predicate Safe(c: Byte) {
    0x30 <= c <= 0x39 || 0x41 <= c <= 0x5A || 0x61 <= c <= 0x7A
  }

  function HexDigit(v: Byte): Byte
    requires v < 16
  {
    if v > 9 then v + (0x41 - 10) else v + 0x30
  }

  /** Table hexValue: -1 for octets that are no hexadecimal digit. */
  function HexValue(c: Byte): int {
    if 0x30 <= c <= 0x39 then c - 0x30
    else if 0x41 <= c <= 0x46 then c - 0x41 + 10
    else if 0x61 <= c <= 0x66 then c - 0x61 + 10
    else -1
  }

  // ---- Escaping ----

  function EscapeByte(c: Byte): seq<Byte> {
    if Safe(c) then [c]
    else if c == SPACE then [PLUS]
    else [PERCENT, HexDigit(c / 16), HexDigit(c % 16)]
  }

  function Escape(s: seq<Byte>): seq<Byte> {
    if s == [] then [] else EscapeByte(s[0]) + Escape(s[1..])
  }

  lemma EscapeFront(t: seq<Byte>)
    requires t != []
    ensures Escape(t) == EscapeByte(t[0]) + Escape(t[1..])
  {
  }

  lemma EscapeNothing(t: seq<Byte>)
    requires t == []
    ensures Escape(t) == []
  {
  }

  method EscapeUrl(str: seq<Byte>) returns (res: seq<Byte>)
    ensures res == Escape(str)
  {
    hide Escape;
    res := [];
    var strPos := 0;
    assert str[0..] == str;
    while strPos < |str|
      invariant strPos <= |str|
      invariant res + Escape(str[strPos..]) == Escape(str)
    {
      var uc := str[strPos];
      EscapeFront(str[strPos..]);
      assert str[strPos..][1..] == str[strPos + 1..];
      ghost var before := res;
      if Safe(uc) {
        res := res + [uc];
      } else if uc == SPACE {
        res := res + [PLUS];
      } else {
        var hexHigh, hexLow := uc / 16, uc % 16;
        var hex1 := if hexHigh > 9 then hexHigh + (0x41 - 10) else hexHigh + 0x30;
        var hex2 := if hexLow > 9 then hexLow + (0x41 - 10) else hexLow + 0x30;
        res := res + [PERCENT];
        res := res + [hex1];
        res := res + [hex2];
        assert res == before + [PERCENT, HexDigit(hexHigh), HexDigit(hexLow)];
      }
      assert res == before + EscapeByte(uc);
      hide EscapeByte, Safe, HexDigit;
      assert before + (EscapeByte(uc) + Escape(str[strPos + 1..])) == res + Escape(str[strPos + 1..]);
      strPos := strPos + 1;
    }
    EscapeNothing(str[strPos..]);
  }

  // ---- Unescaping ----

  function UInt32(x: int): nat {
    x % 0x1_0000_0000
  }

  /** The octet stored for the two characters behind a percent sign: the table values pass
      through unsigned 32-bit variables, and the sum is cut to one octet. */
  function HexPair(high: Byte, low: Byte): Byte {
    UInt32(UInt32(HexValue(high)) * 16 + UInt32(HexValue(low))) % 256
  }

  /** What is written for the characters `t` in front of the terminator, and whether the scan
      gets to the terminator rather than to a percent sign less than two characters from it. */
  function Unescape(t: seq<Byte>): (seq<Byte>, bool) {
    if t == [] then ([], true)
    else if t[0] == PERCENT then
      if |t| < 3 then ([], false)
      else
        var rest := Unescape(t[3..]);
        ([HexPair(t[1], t[2])] + rest.0, rest.1)
    else
      var rest := Unescape(t[1..]);
      ([if t[0] == PLUS then SPACE else t[0]] + rest.0, rest.1)
  }

  lemma {:induction false} NeverLonger(t: seq<Byte>)
    ensures |Unescape(t).0| <= |t|
  {
    if t != [] {
      if t[0] != PERCENT {
        NeverLonger(t[1..]);
      } else if |t| >= 3 {
        NeverLonger(t[3..]);
      }
    }
  }

  /** Place of the terminator. */
  function Terminator(s: seq<Byte>): nat
    requires 0 in s
    ensures Terminator(s) < |s| && s[Terminator(s)] == 0
    ensures 0 !in s[..Terminator(s)]
  {
    if s[0] == 0 then 0
    else
      assert forall k :: 0 < k <= 1 + Terminator(s[1..]) ==> s[k] == s[1..][k - 1];
      1 + Terminator(s[1..])
  }

  /** The buffer afterwards: what was written, a terminator when the scan succeeded, and every
      octet behind that as it was. */
  function Rewritten(s: seq<Byte>): seq<Byte>
    requires 0 in s
  {
    var (out, ok) := Unescape(s[..Terminator(s)]);
    NeverLonger(s[..Terminator(s)]);
    if ok then out + [0] + s[|out| + 1..] else out + s[|out|..]
  }

  lemma UnescapeFront(t: seq<Byte>)
    ensures t == [] ==> Unescape(t) == ([], true)
    ensures t != [] && t[0] == PERCENT && |t| < 3 ==> Unescape(t) == ([], false)
    ensures t != [] && t[0] == PERCENT && |t| >= 3 ==>
      Unescape(t) == ([HexPair(t[1], t[2])] + Unescape(t[3..]).0, Unescape(t[3..]).1)
    ensures t != [] && t[0] != PERCENT ==>
      Unescape(t) == ([if t[0] == PLUS then SPACE else t[0]] + Unescape(t[1..]).0, Unescape(t[1..]).1)
  {
  }

  lemma Closed(front: seq<Byte>, back: seq<Byte>)
    requires |front| < |back|
    ensures (front + back[|front|..])[|front| := 0] == front + [0] + back[|front| + 1..]
  {
  }

  lemma RewrittenIs(was: seq<Byte>, out: seq<Byte>, ok: bool)
    requires 0 in was && Unescape(was[..Terminator(was)]) == (out, ok)
    ensures |out| < |was|
    ensures Rewritten(was) == if ok then out + [0] + was[|out| + 1..] else out + was[|out|..]
  {
    NeverLonger(was[..Terminator(was)]);
  }

  /** The switch: the octet to write for the character at `readPos` and how many characters it
      takes, or the failure of a percent sign too close to the terminator at `n`. From
      `readPos` on the buffer still holds what it held at first, `was`. */
  method ReadOne(str: array<Byte>, readPos: nat, ghost was: seq<Byte>, ghost n: nat)
    returns (ok: bool, octet: Byte, width: nat)
    requires |was| == str.Length && readPos < n < |was| && was[n] == 0
    requires forall k :: readPos <= k <= n ==> str[k] == was[k]
    requires forall k :: 0 <= k < n ==> was[k] != 0
    ensures !ok ==> Unescape(was[readPos..n]) == ([], false)
    ensures ok ==> 1 <= width <= n - readPos && var rest := Unescape(was[readPos + width..n]);
      Unescape(was[readPos..n]) == ([octet] + rest.0, rest.1)
  {
    hide Unescape, HexValue, UInt32;
    ghost var t := was[readPos..n];
    UnescapeFront(t);
    ok, octet, width := true, str[readPos], 1;
    if str[readPos] == PERCENT {
      if str[readPos + 1] == 0 || str[readPos + 2] == 0 {
        return false, 0, 0;
      }
      var hexHigh := UInt32(HexValue(str[readPos + 1]));
      var hexLow := UInt32(HexValue(str[readPos + 2]));
      var numericValue := UInt32(hexHigh * 16 + hexLow);
      octet, width := numericValue % 256, 3;
    } else if str[readPos] == PLUS {
      octet := SPACE;
    }
    assert t[width..] == was[readPos + width..n];
  }

  /** Decodes up to the terminator. `size` is documented as the length before and after, but is
      never stored to (`storesSize` false). */
  method UnescapeUrlInPlace(str: array<Byte>, size: nat, storesSize: bool) returns (ok: bool, newSize: nat)
    requires 0 in str[..]
    modifies str
    ensures newSize == if ok && storesSize then |Unescape(old(str[..])[..Terminator(old(str[..]))]).0| else size
    ensures ok == Unescape(old(str[..])[..Terminator(old(str[..]))]).1
    ensures str[..] == Rewritten(old(str[..]))
  {
    hide *;
    ghost var was := str[..];
    ghost var n := Terminator(was);
    ghost var content := was[..n];
    assert forall k :: 0 <= k < n ==> was[k] == content[k];
    var readPos, writePos := 0, 0;
    ghost var done: seq<Byte> := [];
    assert was[0..n] == content;
    NothingWritten(was);
    while str[readPos] != 0
      invariant |done| == writePos <= readPos <= n
      invariant PartWritten(str[..], was, done)
      invariant done + Unescape(was[readPos..n]).0 == Unescape(content).0
      invariant Unescape(was[readPos..n]).1 == Unescape(content).1
      decreases n - readPos
    {
      Untouched(str[..], was, done);
      var fine, octet, width := ReadOne(str, readPos, was, n);
      if !fine {
        assert done + [] == done;
        RewrittenIs(was, done, false);
        WrittenIs(str[..], was, done);
        return false, size;
      }
      Regroup(done, [octet], Unescape(was[readPos + width..n]).0);
      OneWritten(str[..], was, done, octet);
      done := done + [octet];
      str[writePos] := octet;
      readPos := readPos + width;
      writePos := writePos + 1;
    }
    assert readPos == n by { Untouched(str[..], was, done); }
    UnescapeFront(was[readPos..n]);
    assert done + [] == done;
    RewrittenIs(was, done, true);
    WrittenIs(str[..], was, done);
    Closed(done, was);
    str[writePos] := 0;
    ok, newSize := true, if storesSize then writePos else size;
  }

  /** The buffer with its front overwritten. */
  ghost predicate PartWritten(s: seq<Byte>, was: seq<Byte>, done: seq<Byte>) {
    && |done| <= |s| == |was|
    && (forall k :: 0 <= k < |done| ==> s[k] == done[k])
    && (forall k :: |done| <= k < |s| ==> s[k] == was[k])
  }

  lemma NothingWritten(s: seq<Byte>)
    ensures PartWritten(s, s, [])
  {
  }

  lemma OneWritten(s: seq<Byte>, was: seq<Byte>, done: seq<Byte>, octet: Byte)
    requires PartWritten(s, was, done) && |done| < |s|
    ensures PartWritten(s[|done| := octet], was, done + [octet])
  {
  }

  lemma Untouched(s: seq<Byte>, was: seq<Byte>, done: seq<Byte>)
    requires PartWritten(s, was, done)
    ensures forall k :: |done| <= k < |s| ==> s[k] == was[k]
  {
  }

  lemma WrittenIs(s: seq<Byte>, was: seq<Byte>, done: seq<Byte>)
    requires PartWritten(s, was, done)
    ensures s == done + was[|done|..]
  {
  }

  /** The length is kept exactly by texts without a percent sign. */
  lemma {:induction false} SameLength(t: seq<Byte>)
    requires Unescape(t).1
    ensures |Unescape(t).0| == |t| <==> PERCENT !in t
  {
    if t != [] {
      if t[0] == PERCENT {
        NeverLonger(t[3..]);
      } else {
        SameLength(t[1..]);
        assert t == [t[0]] + t[1..];
      }
      hide HexPair;
    }
  }

  /** unescapeUrl: the copy of the text is not terminated, so decoding goes on into what the storage
      holds behind it, `beyond`. */
  method UnescapeUrl(str: seq<Byte>, beyond: seq<Byte>, dest: seq<Byte>, storesSize: bool)
    returns (ok: bool, out: seq<Byte>)
    requires 0 in str + beyond
    ensures var content := (str + beyond)[..Terminator(str + beyond)];
      && ok == Unescape(content).1 && (!ok ==> out == dest)
      && (ok && storesSize ==> out == dest + Unescape(content).0)
    ensures ok && !storesSize ==> out == dest + Rewritten(str + beyond)[..|str|]
  {
    hide *;
    var s := str + beyond;
    var buffer := new Byte[|s|](k requires 0 <= k < |s| => s[k]);
    assert buffer[..] == s;
    var strLen;
    ok, strLen := UnescapeUrlInPlace(buffer, |str|, storesSize);
    if !ok {
      return false, dest;
    }
    RewrittenFront(s);
    out := dest + buffer[..strLen];
  }

  lemma RewrittenFront(s: seq<Byte>)
    requires 0 in s
    ensures |Rewritten(s)| == |s|
    ensures var (out, ok) := Unescape(s[..Terminator(s)]);
      |out| <= |s| && (ok ==> Rewritten(s)[..|out|] == out)
  {
    NeverLonger(s[..Terminator(s)]);
  }

  /** Even with a terminator right behind the copy, the text appended as written is the decoded one
      exactly when nothing in it was escaped: else octets of the escaped text follow. */
  lemma AppendsTooMuch(str: seq<Byte>, beyond: seq<Byte>)
    requires 0 !in str && beyond != [] && beyond[0] == 0 && Unescape(str).1
    ensures 0 in str + beyond && (str + beyond)[..Terminator(str + beyond)] == str
    ensures |Rewritten(str + beyond)| >= |str|
    ensures Rewritten(str + beyond)[..|str|] == Unescape(str).0 <==> PERCENT !in str
  {
    var s := str + beyond;
    assert s[|str|] == 0;
    TerminatorIs(s, |str|);
    assert s[..|str|] == str;
    RewrittenFront(s);
    SameLength(str);
  }

  lemma {:induction false} TerminatorIs(s: seq<Byte>, n: nat)
    requires n < |s| && s[n] == 0 && 0 !in s[..n]
    ensures Terminator(s) == n
    decreases n
  {
    if n > 0 {
      assert s[..n] == [s[0]] + s[1..][..n - 1];
      TerminatorIs(s[1..], n - 1);
    }
  }

  // ---- Round trip ----

  lemma HexDigitValue(v: Byte)
    requires v < 16
    ensures HexValue(HexDigit(v)) == v && HexDigit(v) != 0
  {
  }

  lemma HexPairValue(high: Byte, low: Byte)
    requires HexValue(high) >= 0 && HexValue(low) >= 0
    ensures HexPair(high, low) == HexValue(high) * 16 + HexValue(low)
  {
    SmallPair(HexValue(high), HexValue(low));
    hide UInt32;
  }

  lemma SmallPair(high: nat, low: nat)
    requires high < 16 && low < 16
    ensures UInt32(UInt32(high) * 16 + UInt32(low)) % 256 == high * 16 + low
  {
  }

  lemma EscapedByte(c: Byte, rest: seq<Byte>)
    ensures 0 !in EscapeByte(c)
    ensures Unescape(EscapeByte(c) + rest) == ([c] + Unescape(rest).0, Unescape(rest).1)
  {
    var t := EscapeByte(c) + rest;
    UnescapeFront(t);
    hide Unescape, UInt32, HexPair;
    if Safe(c) || c == SPACE {
      assert t[1..] == rest;
    } else {
      HexDigitValue(c / 16);
      HexDigitValue(c % 16);
      HexPairValue(t[1], t[2]);
      hide HexValue, HexDigit;
      assert t[3..] == rest;
    }
  }

  /** Decoding what escapeUrl made of any octets, terminators among them included, gives them
      back, and the escaped text has no terminator inside. */
  lemma {:induction false} UnescapeEscape(s: seq<Byte>)
    ensures Unescape(Escape(s)) == (s, true) && 0 !in Escape(s)
  {
    if s != [] {
      EscapedByte(s[0], Escape(s[1..]));
      UnescapeEscape(s[1..]);
      hide Unescape, EscapeByte;
      assert Escape(s) == EscapeByte(s[0]) + Escape(s[1..]);
      assert s == [s[0]] + s[1..];
    }
  }

  /** So in the buffer holding the terminated result of escapeUrl, the decoder leaves `s` and a
      terminator. */
  lemma RoundTrip(s: seq<Byte>, suffix: seq<Byte>)
    ensures |s| <= |Escape(s)|
    ensures var b := Escape(s) + [0] + suffix;
      && Unescape(b[..Terminator(b)]) == (s, true)
      && Rewritten(b) == s + [0] + b[|s| + 1..]
  {
    hide Unescape, Escape;
    NeverLonger(Escape(s));
    var b := Escape(s) + [0] + suffix;
    UnescapeEscape(s);
    assert b[|Escape(s)|] == 0;
    var n := Terminator(b);
    assert n == |Escape(s)|;
    assert b[..n] == Escape(s);
  }

  // ---- The alphabets ----

  /** The octet of a hexadecimal digit. */
  function HexOctet(v: nat, upper: bool): Byte
    requires v < 16
  {
    if upper then "0123456789ABCDEF"[v] as int else "0123456789abcdef"[v] as int
  }

  lemma HexTables(v: nat, upper: bool)
    requires v < 16
    ensures HexValue(HexOctet(v, upper)) == v && HexDigit(v) == HexOctet(v, true)
  {
  }

  /** The decoder reads a percent sign and two digits, each in either case, as their octet. */
  lemma TripleIsDecoded(c: Byte, upper: bool, upper': bool, rest: seq<Byte>)
    ensures Unescape(['%' as int, HexOctet(c / 16, upper), HexOctet(c % 16, upper')] + rest)
         == ([c] + Unescape(rest).0, Unescape(rest).1)
  {
    hide Unescape, HexPair, HexValue, HexDigit, HexOctet;
    var t := ['%' as int, HexOctet(c / 16, upper), HexOctet(c % 16, upper')] + rest;
    HexTables(c / 16, upper);
    HexTables(c % 16, upper');
    UnescapeFront(t);
    HexPairValue(t[1], t[2]);
    assert t[3..] == rest;
  }

  /** Any other octet stands for itself, except that a plus sign stands for a blank; and a percent
      sign with less than two octets behind it ends the decoding. */
  lemma OtherIsDecoded(c: Byte, rest: seq<Byte>)
    ensures var plain := if c == '+' as int then ' ' as int else c;
      c != '%' as int ==> Unescape([c] + rest) == ([plain] + Unescape(rest).0, Unescape(rest).1)
    ensures |rest| < 2 ==> Unescape(['%' as int] + rest) == ([], false)
    ensures Unescape([]) == ([], true)
  {
    UnescapeFront([c] + rest);
    UnescapeFront(['%' as int] + rest);
    hide Unescape;
    assert ([c] + rest)[1..] == rest;
  }

  /** The octet may stand for itself in section 17.13.4.1 of HTML 4.01. */
  predicate LetterOrDigit(c: Byte) {
    '0' <= c as char <= '9' || 'A' <= c as char <= 'Z' || 'a' <= c as char <= 'z'
  }

  lemma SafeIsLetterOrDigit(c: Byte)
    ensures Safe(c) <==> LetterOrDigit(c)
  {
  }

  /** What section 17.13.4.1 of HTML 4.01 writes for an octet. */
  function FormOctet(c: Byte): seq<Byte> {
    if LetterOrDigit(c) then [c]
    else if c == ' ' as int then ['+' as int]
    else ['%' as int, HexOctet(c / 16, true), HexOctet(c % 16, true)]
  }

  /** Letters, digits and plus signs, and percent signs with two upper-case digits. */
  predicate FormText(t: seq<Byte>) {
    || t == []
    || ((LetterOrDigit(t[0]) || t[0] == '+' as int) && FormText(t[1..]))
    || (|t| >= 3 && t[0] == '%' as int && FormText(t[3..])
        && (exists h: nat :: h < 16 && t[1] == HexOctet(h, true)) && (exists l: nat :: l < 16 && t[2] == HexOctet(l, true)))
  }

  lemma EscapedOctet(c: Byte)
    ensures EscapeByte(c) == FormOctet(c)
  {
    SafeIsLetterOrDigit(c);
    HexTables(c / 16, true);
    HexTables(c % 16, true);
    hide Safe, LetterOrDigit, HexDigit, HexOctet, HexValue;
  }

  /** The escaped text is the octets so written one after the other, and holds nothing else. */
  lemma EscapedIsForm(s: seq<Byte>, c: Byte)
    ensures FormText(Escape(s))
    ensures Escape([]) == [] && Escape(s + [c]) == Escape(s) + FormOctet(c)
  {
    EscapedText(s);
    EscapeSnoc(s, c);
    EscapedOctet(c);
    EscapeNothing([]);
  }

  lemma {:induction false} EscapedText(s: seq<Byte>)
    ensures FormText(Escape(s))
  {
    hide *;
    if s == [] {
      EscapeNothing(s);
      NoForm();
    } else {
      EscapedText(s[1..]);
      EscapeFront(s);
      EscapedOctet(s[0]);
      FormCons(s[0], Escape(s[1..]));
    }
  }

  lemma NoForm()
    ensures FormText([])
  {
  }

  lemma {:induction false} EscapeSnoc(s: seq<Byte>, c: Byte)
    ensures Escape(s + [c]) == Escape(s) + EscapeByte(c)
  {
    hide *;
    EscapeFront(s + [c]);
    if s == [] {
      EscapeNothing(s);
      EscapeNothing((s + [c])[1..]);
    } else {
      EscapeFront(s);
      EscapeSnoc(s[1..], c);
      assert (s + [c])[1..] == s[1..] + [c];
      Regroup(EscapeByte(s[0]), Escape(s[1..]), EscapeByte(c));
    }
  }

  lemma FormCons(c: Byte, t: seq<Byte>)
    requires FormText(t)
    ensures FormText(FormOctet(c) + t)
  {
    hide LetterOrDigit, HexOctet;
    var all := FormOctet(c) + t;
    assert |FormOctet(c)| == 1 ==> all[1..] == t;
    assert |FormOctet(c)| == 3 ==> all[3..] == t;
  }

  // ---- Malformed pairs ----

  /** The decoder its test of the digits was meant to give: a pair that is not hexadecimal is
      a failure too. */
  function UnescapeAsMeant(t: seq<Byte>): (seq<Byte>, bool) {
    if t == [] then ([], true)
    else if t[0] == PERCENT then
      if |t| < 3 || HexValue(t[1]) < 0 || HexValue(t[2]) < 0 then ([], false)
      else
        var rest := UnescapeAsMeant(t[3..]);
        ([HexValue(t[1]) * 16 + HexValue(t[2])] + rest.0, rest.1)
    else
      var rest := UnescapeAsMeant(t[1..]);
      ([if t[0] == PLUS then SPACE else t[0]] + rest.0, rest.1)
  }

  /** No percent sign the scan meets is followed by two characters that are not both digits. */
  predicate WellPaired(t: seq<Byte>) {
    t == [] ||
    if t[0] != PERCENT then WellPaired(t[1..])
    else |t| < 3 || (HexValue(t[1]) >= 0 && HexValue(t[2]) >= 0 && WellPaired(t[3..]))
  }

  /** The unsigned test never fires, so the two decoders agree exactly on the well-paired texts;
      any other is accepted as written unless a truncated escape follows. */
  lemma {:induction false} AgreesWhenWellPaired(t: seq<Byte>)
    ensures Unescape(t) == UnescapeAsMeant(t) <==> WellPaired(t)
    ensures !WellPaired(t) ==> !UnescapeAsMeant(t).1
  {
    UnescapeFront(t);
    hide Unescape, HexPair;
    if t != [] {
      if t[0] != PERCENT {
        AgreesWhenWellPaired(t[1..]);
        SameTail(if t[0] == PLUS then SPACE else t[0], Unescape(t[1..]).0, UnescapeAsMeant(t[1..]).0);
      } else if |t| >= 3 {
        AgreesWhenWellPaired(t[3..]);
        if HexValue(t[1]) >= 0 && HexValue(t[2]) >= 0 {
          HexPairValue(t[1], t[2]);
          SameTail(HexPair(t[1], t[2]), Unescape(t[3..]).0, UnescapeAsMeant(t[3..]).0);
        }
      }
    }
  }

  lemma SameTail(x: Byte, a: seq<Byte>, b: seq<Byte>)
    ensures [x] + a == [x] + b <==> a == b
  {
    assert ([x] + a)[1..] == a && ([x] + b)[1..] == b;
  }

  /** "%zz" is accepted and yields the octet EF. */
  lemma AcceptsNonHex()
    ensures Unescape([PERCENT, 0x7A, 0x7A]) == ([0xEF], true)
    ensures !UnescapeAsMeant([PERCENT, 0x7A, 0x7A]).1
  {
    var t: seq<Byte> := [PERCENT, 0x7A, 0x7A];
    assert t[3..] == [];
    assert HexPair(0x7A, 0x7A) == 0xEF;
    assert [HexPair(0x7A, 0x7A)] + Unescape([]).0 == [0xEF];
  }
}
