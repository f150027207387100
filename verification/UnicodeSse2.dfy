/** The block prefixes of src/ge/text/UnicodeUtil_sse2.cpp and the converters that run
    them before their scalar loops. A vector register is a sequence of 16 octets. */
module UnicodeSse2 {
  import opened Utf
  import opened UnicodeUtil
  import opened UnicodeValidator

  /** `*iter`, which the prefixes also read at the end of the buffer: the octet found
      there is `next`. */
  function Peek(buffer: seq<bv8>, iter: nat, next: bv8): bv8 {
    if iter < |buffer| then buffer[iter] else next
  }

  lemma WidenSplit(s: seq<bv8>, t: seq<bv8>)
    ensures Widen(s + t) == Widen(s) + Widen(t)
  {
    assert forall k :: 0 <= k < |s + t| ==> (s + t)[k] == if k < |s| then s[k] else t[k - |s|];
  }

  lemma AsciiGrows(buffer: seq<bv8>, iter: nat, n: nat)
    requires iter + n <= |buffer| && Ascii(buffer[..iter]) && Ascii(buffer[iter..iter + n])
    ensures Ascii(buffer[..iter + n])
    ensures Widen(buffer[..iter + n]) == Widen(buffer[..iter]) + Widen(buffer[iter..iter + n])
  {
    assert buffer[..iter + n] == buffer[..iter] + buffer[iter..iter + n];
    WidenSplit(buffer[..iter], buffer[iter..iter + n]);
  }

  lemma AsciiGrowsByOne(buffer: seq<bv8>, iter: nat)
    requires iter < |buffer| && Ascii(buffer[..iter]) && buffer[iter] < 0x80
    ensures Ascii(buffer[..iter + 1])
    ensures Widen(buffer[..iter + 1]) == Widen(buffer[..iter]) + [buffer[iter] as bv32]
  {
    assert buffer[iter..iter + 1] == [buffer[iter]];
    assert Ascii([buffer[iter]]) && Widen([buffer[iter]]) == [buffer[iter] as bv32];
    hide *;
    AsciiGrows(buffer, iter, 1);
  }

  lemma NothingWidened(buffer: seq<bv8>)
    ensures Ascii(buffer[..0]) && Widen(buffer[..0]) == [] && Widen16(buffer[..0]) == []
  {
  }

  function Wide(b: bv8): bv32 {
    b as bv32
  }

  /** fillBlock after its sixteen assignments. */
  function FillBlock32(b: seq<bv8>): seq<bv32>
    requires |b| == 16
  {
    [Wide(b[0]), Wide(b[1]), Wide(b[2]), Wide(b[3]), Wide(b[4]), Wide(b[5]), Wide(b[6]), Wide(b[7]),
     Wide(b[8]), Wide(b[9]), Wide(b[10]), Wide(b[11]), Wide(b[12]), Wide(b[13]), Wide(b[14]), Wide(b[15])]
  }

  lemma FillBlockWidens(b: seq<bv8>)
    requires |b| == 16
    ensures FillBlock32(b) == Widen(b)
  {
    forall k | 0 <= k < 16 ensures Widen(b)[k] == Wide(b[k]) {
    }
    hide Wide, Widen;
  }

  /** A block that starts aligned below the rounded-down end. */
  lemma BlockInBuffer(buffer: seq<bv8>, base: nat, iter: nat)
    requires Sse2.AtStep(base + iter) && base + iter < Sse2.FastEnd(base + |buffer|)
    ensures iter + 16 <= |buffer| && Sse2.Tested() == 16
    ensures Sse2.AtLoad(base + iter) && Sse2.AtStep(base + iter + 16)
  {
    BlockFits(base + iter, base + |buffer|, Sse2);
  }

  /** The loop up to the first multiple of 32 or non-ASCII octet. */
  method WidenToBlock(buffer: seq<bv8>, base: nat, dest: seq<bv32>) returns (iter: nat, out: seq<bv32>)
    ensures iter <= |buffer| && Ascii(buffer[..iter]) && out == dest + Widen(buffer[..iter])
    ensures iter < |buffer| && buffer[iter] < 128 ==> Sse2.AtStart(base + iter)
  {
    hide *;
    iter, out := 0, dest;
    NothingWidened(buffer);
    while iter < |buffer| && buffer[iter] < 128 && !Sse2.AtStart(base + iter)
      invariant iter <= |buffer| && Ascii(buffer[..iter])
      invariant out == dest + Widen(buffer[..iter])
    {
      AsciiGrowsByOne(buffer, iter);
      out := out + [buffer[iter] as bv32];
      iter := iter + 1;
    }
  }

  /** utf8ToUtf32_partial_sse2: how far it got and what it appended. Every block load meets
      the precondition of LoadBlock, whatever `base` and `next` are. */
  method Utf8ToUtf32Partial(buffer: seq<bv8>, base: nat, next: bv8, dest: seq<bv32>)
    returns (iter: nat, out: seq<bv32>)
    ensures iter <= |buffer| && Ascii(buffer[..iter])
    ensures out == dest + Widen(buffer[..iter])
  {
    hide Ascii, Widen, Scan.AtStart, Scan.AtStep, Scan.AtLoad, Scan.FastEnd, Scan.Tested, TopBitSet, FillBlock32;
    iter, out := WidenToBlock(buffer, base, dest);
    if Peek(buffer, iter, next) < 128 {
      var fastEnd := Sse2.FastEnd(base + |buffer|);
      StartIsStep(base + iter, Sse2);
      StartIsStep(base + |buffer|, Sse2);
      while base + iter < fastEnd
        invariant iter <= |buffer| && Ascii(buffer[..iter])
        invariant out == dest + Widen(buffer[..iter])
        invariant Sse2.AtStep(base + iter) || base + iter >= fastEnd
      {
        BlockInBuffer(buffer, base, iter);
        var test := LoadBlock(buffer, base, iter, Sse2);
        TopBitIsAscii(test);
        if TopBitSet(test) {
          break;
        }
        AsciiGrows(buffer, iter, 16);
        var fillBlock := FillBlock32(test);
        FillBlockWidens(test);
        out := out + fillBlock;
        iter := iter + 16;
      }
    }
  }

  /** utf8ToUtf32: with or without the block prefix, and wherever the buffer lies, exactly the
      decoded code points are appended. */
  method Utf8ToUtf32(buffer: seq<bv8>, base: nat, next: bv8, hasSse2: bool, dest: seq<bv32>)
    returns (out: seq<bv32>)
    requires Utf8(buffer)
    ensures out == dest + DecodeAll8(buffer)
  {
    hide Widen, Octets, Ascii, DecodeAll8;
    var iter := 0;
    out := dest;
    if hasSse2 {
      iter, out := Utf8ToUtf32Partial(buffer, base, next, dest);
      AsciiPrefix(buffer, iter, false);
    } else {
      assert buffer[0..] == buffer;
    }
    out := Utf8ToUtf32Scalar(buffer, iter, out);
  }

  // ---- UTF-8 to UTF-16 ----

  function Wide16(b: bv8): bv16 {
    b as bv16
  }

  function Widen16(s: seq<bv8>): (r: seq<bv16>)
    ensures |r| == |s| && forall k :: 0 <= k < |s| ==> r[k] == Wide16(s[k])
  {
    if s == [] then [] else [Wide16(s[0])] + Widen16(s[1..])
  }

  /** Interleaving with zero octets: the upper eight octets of a register, or the lower. */
  function UnpackHi(test: seq<bv8>): seq<bv16>
    requires |test| == 16
  {
    Widen16(test[8..])
  }

  function UnpackLo(test: seq<bv8>): seq<bv16>
    requires |test| == 16
  {
    Widen16(test[..8])
  }

  lemma AsciiUnit(b: bv8)
    requires b < 0x80
    ensures Encode16(b as bv32) == [Wide16(b)]
  {
  }

  lemma Wide16Injective(a: bv8, b: bv8)
    requires Wide16(a) == Wide16(b)
    ensures a == b
  {
  }

  lemma WidenFront(s: seq<bv8>, rest: seq<bv32>)
    requires s != []
    ensures Widen(s) + rest == [s[0] as bv32] + (Widen(s[1..]) + rest)
  {
    assert Widen(s) == [s[0] as bv32] + Widen(s[1..]);
    hide Widen;
  }

  lemma {:induction false} EncodeAscii16(s: seq<bv8>, rest: seq<bv32>)
    requires Ascii(s)
    ensures EncodeAll16(Widen(s) + rest) == Widen16(s) + EncodeAll16(rest)
  {
    if s == [] {
      assert Widen(s) + rest == rest;
    } else {
      hide Encode16, Wide16;
      AsciiUnit(s[0]);
      EncodeAscii16(s[1..], rest);
      WidenFront(s, rest);
    }
  }

  /** A register holds eight pairs stored in swapped halves. */
  lemma SwappedBlock(test: seq<bv8>)
    requires |test| == 16
    ensures |UnpackHi(test) + UnpackLo(test)| == 16
    ensures forall k :: 0 <= k < 16 ==>
      (UnpackHi(test) + UnpackLo(test))[k] == Wide16(test[if k < 8 then k + 8 else k - 8])
    ensures UnpackHi(test) + UnpackLo(test) == Widen16(test) <==> test[..8] == test[8..]
  {
    hide Wide16;
    var stored, meant := UnpackHi(test) + UnpackLo(test), Widen16(test);
    if stored == meant {
      forall k | 0 <= k < 8 ensures test[..8][k] == test[8..][k] {
        assert stored[k] == meant[k];
        Wide16Injective(test[8 + k], test[k]);
      }
    } else if test[..8] == test[8..] {
      forall k | 0 <= k < 16 ensures stored[k] == meant[k] {
        if k < 8 {
          assert test[8..][k] == test[..8][k];
        } else {
          assert test[..8][k - 8] == test[8..][k - 8];
        }
      }
    }
  }

  /** Octet `p` is a whole number of blocks behind the first multiple of 32. */
  predicate OnGrid(base: nat, p: nat) {
    Sse2.Gap(base) <= p && (p - Sse2.Gap(base)) % 16 == 0
  }

  /** Octet `p` starts a block that the SSE2 prefix converts. */
  ghost predicate InBlock(buffer: seq<bv8>, base: nat, p: int) {
    && 0 <= p && OnGrid(base, p)
    && base + p < Sse2.FastEnd(base + |buffer|)
    && p + 16 <= |buffer| && Ascii(buffer[..p + 16])
  }

  /** Up to octet `end`, every such block repeats its first eight octets. */
  ghost predicate HalvesAgree(buffer: seq<bv8>, base: nat, end: int) {
    forall p :: p < end && InBlock(buffer, base, p) ==> buffer[p..p + 8] == buffer[p + 8..p + 16]
  }

  lemma GridStart(base: nat, p: nat)
    ensures p == Sse2.Gap(base) ==> OnGrid(base, p)
    ensures OnGrid(base, p) ==> OnGrid(base, p + 16)
  {
    hide Scan.Gap;
  }

  /** The loop up to the first multiple of 32 or non-ASCII octet. */
  method CopyToBlock(buffer: seq<bv8>, base: nat, dest: seq<bv16>) returns (iter: nat, out: seq<bv16>)
    ensures iter <= |buffer| && Ascii(buffer[..iter]) && out == dest + Widen16(buffer[..iter])
    ensures iter <= Sse2.Gap(base)
    ensures iter < |buffer| && buffer[iter] < 128 ==> Sse2.AtStep(base + iter) && OnGrid(base, iter)
  {
    hide *;
    iter, out := 0, dest;
    NothingWidened(buffer);
    GapIsNext(base, Sse2, 0);
    while iter < |buffer| && buffer[iter] < 128 && !Sse2.AtStart(base + iter)
      invariant iter <= |buffer| && Ascii(buffer[..iter]) && iter <= Sse2.Gap(base)
      invariant out == dest + Widen16(buffer[..iter])
    {
      AsciiGrowsByOne(buffer, iter);
      Widen16Snoc(buffer, iter);
      out := out + [Wide16(buffer[iter])];
      iter := iter + 1;
    }
    GapIsNext(base, Sse2, iter);
    StartIsStep(base + iter, Sse2);
    GridStart(base, iter);
  }

  /** The loop over whole blocks from `start` on, an ASCII octet or the end. */
  method SwapBlocks(buffer: seq<bv8>, base: nat, start: nat, ghost dest: seq<bv16>, before: seq<bv16>)
    returns (iter: nat, out: seq<bv16>)
    requires start <= |buffer| && Ascii(buffer[..start]) && before == dest + Widen16(buffer[..start])
    requires start < |buffer| ==> Sse2.AtStep(base + start) && OnGrid(base, start)
    requires HalvesAgree(buffer, base, start)
    ensures iter <= |buffer| && Ascii(buffer[..iter]) && |out| == |dest| + iter
    ensures out == dest + Widen16(buffer[..iter]) <==> HalvesAgree(buffer, base, |buffer|)
  {
    hide *;
    iter, out := start, before;
    Widen16Length(buffer[..iter]);
    var fastEnd := Sse2.FastEnd(base + |buffer|);
    StartIsStep(base + |buffer|, Sse2);
    while base + iter < fastEnd
      invariant iter <= |buffer| && Ascii(buffer[..iter]) && |out| == |dest| + iter
      invariant out == dest + Widen16(buffer[..iter]) <==> HalvesAgree(buffer, base, iter)
      invariant base + iter >= fastEnd || (Sse2.AtStep(base + iter) && OnGrid(base, iter))
    {
      BlockInBuffer(buffer, base, iter);
      var test := LoadBlock(buffer, base, iter, Sse2);
      TopBitIsAscii(test);
      if TopBitSet(test) {
        NoMoreBlocks(buffer, base, iter);
        return;
      }
      AsciiGrows(buffer, iter, 16);
      OneBlock(buffer, base, iter, dest, out);
      GridStart(base, iter);
      out := out + (UnpackHi(test) + UnpackLo(test));
      iter := iter + 16;
    }
    NoMoreBlocks(buffer, base, iter);
  }

  /** utf8ToUtf16_partial_sse2: the high half of each block is stored in front of the low one,
      so the prefix is right exactly when the halves of every block agree. */
  method Utf8ToUtf16Partial(buffer: seq<bv8>, base: nat, next: bv8, dest: seq<bv16>)
    returns (iter: nat, out: seq<bv16>)
    ensures iter <= |buffer| && Ascii(buffer[..iter]) && |out| == |dest| + iter
    ensures out == dest + Widen16(buffer[..iter]) <==> HalvesAgree(buffer, base, |buffer|)
  {
    hide Ascii, Widen16, Scan.AtStep, OnGrid, Scan.Gap, HalvesAgree, Scan.FastEnd;
    iter, out := CopyToBlock(buffer, base, dest);
    NoBlocksBefore(buffer, base, iter);
    if Peek(buffer, iter, next) < 128 {
      iter, out := SwapBlocks(buffer, base, iter, dest, out);
    } else {
      Widen16Length(buffer[..iter]);
      StartIsStep(base + |buffer|, Sse2);
      NoMoreBlocks(buffer, base, iter);
    }
  }

  lemma NoBlocksBefore(buffer: seq<bv8>, base: nat, iter: nat)
    requires iter <= Sse2.Gap(base)
    ensures HalvesAgree(buffer, base, iter)
  {
  }

  lemma Widen16Snoc(buffer: seq<bv8>, iter: nat)
    requires iter < |buffer|
    ensures Widen16(buffer[..iter + 1]) == Widen16(buffer[..iter]) + [Wide16(buffer[iter])]
  {
    assert buffer[..iter + 1] == buffer[..iter] + [buffer[iter]];
    Widen16Split(buffer[..iter], [buffer[iter]]);
  }

  lemma Widen16Split(s: seq<bv8>, t: seq<bv8>)
    ensures Widen16(s + t) == Widen16(s) + Widen16(t)
  {
    assert forall k :: 0 <= k < |s + t| ==> (s + t)[k] == if k < |s| then s[k] else t[k - |s|];
  }

  lemma OneBlock(buffer: seq<bv8>, base: nat, iter: nat, dest: seq<bv16>, before: seq<bv16>)
    requires iter + 16 <= |buffer| && Ascii(buffer[..iter + 16]) && |before| == |dest| + iter
    requires OnGrid(base, iter) && base + iter < Sse2.FastEnd(base + |buffer|)
    requires before == dest + Widen16(buffer[..iter]) <==> HalvesAgree(buffer, base, iter)
    ensures var test := buffer[iter..iter + 16];
      var out := before + (UnpackHi(test) + UnpackLo(test));
      && |out| == |dest| + iter + 16
      && (out == dest + Widen16(buffer[..iter + 16]) <==> HalvesAgree(buffer, base, iter + 16))
  {
    hide *;
    var test := buffer[iter..iter + 16];
    assert buffer[..iter + 16] == buffer[..iter] + test;
    IsBlock(buffer, base, iter);
    SwappedBlock(test);
    Widen16Split(buffer[..iter], test);
    Widen16Length(buffer[..iter]);
    BlocksUpTo(buffer, base, iter);
    AppendBoth(before, dest, Widen16(buffer[..iter]), UnpackHi(test) + UnpackLo(test), Widen16(test));
  }

  lemma IsBlock(buffer: seq<bv8>, base: nat, iter: nat)
    requires iter + 16 <= |buffer| && Ascii(buffer[..iter + 16])
    requires OnGrid(base, iter) && base + iter < Sse2.FastEnd(base + |buffer|)
    ensures InBlock(buffer, base, iter)
  {
  }

  lemma Widen16Length(s: seq<bv8>)
    ensures |Widen16(s)| == |s|
  {
  }

  lemma AppendBoth<T>(a: seq<T>, d: seq<T>, w: seq<T>, x: seq<T>, y: seq<T>)
    requires |a| == |d| + |w|
    ensures a + x == d + (w + y) <==> a == d + w && x == y
  {
    assert d + (w + y) == d + w + y;
    AppendEqual(a, d + w, x, y);
  }

  lemma AppendEqual<T>(a: seq<T>, b: seq<T>, x: seq<T>, y: seq<T>)
    requires |a| == |b|
    ensures a + x == b + y <==> a == b && x == y
  {
    if a + x == b + y {
      assert a == (a + x)[..|a|] == b;
      assert x == (a + x)[|a|..] == y;
    }
  }

  lemma BlocksUpTo(buffer: seq<bv8>, base: nat, iter: nat)
    requires iter + 16 <= |buffer| && InBlock(buffer, base, iter)
    ensures var test := buffer[iter..iter + 16];
      HalvesAgree(buffer, base, iter + 16) <==> HalvesAgree(buffer, base, iter) && test[..8] == test[8..]
  {
    var test := buffer[iter..iter + 16];
    assert test[..8] == buffer[iter..iter + 8] && test[8..] == buffer[iter + 8..iter + 16];
    assert forall p :: InBlock(buffer, base, p) && iter <= p < iter + 16 ==> p == iter;
  }

  lemma NoMoreBlocks(buffer: seq<bv8>, base: nat, iter: nat)
    requires iter <= |buffer|
    requires || base + iter >= Sse2.FastEnd(base + |buffer|)
             || (iter < |buffer| && buffer[iter] >= 0x80)
             || (iter + 16 <= |buffer| && !Ascii(buffer[iter..iter + 16]))
    ensures HalvesAgree(buffer, base, iter) <==> HalvesAgree(buffer, base, |buffer|)
  {
    hide Scan.FastEnd, Scan.Gap;
    forall p | iter <= p ensures !InBlock(buffer, base, p) {
      if base + iter < Sse2.FastEnd(base + |buffer|) && p + 16 <= |buffer| {
        NotAsciiBehind(buffer, iter, p + 16);
      }
    }
  }

  lemma NotAsciiBehind(buffer: seq<bv8>, iter: nat, end: nat)
    requires iter + 16 <= end <= |buffer|
    requires buffer[iter] >= 0x80 || !Ascii(buffer[iter..iter + 16])
    ensures !Ascii(buffer[..end])
  {
    if Ascii(buffer[..end]) {
      var block := buffer[iter..iter + 16];
      forall k | 0 <= k < |block| ensures block[k] < 0x80 {
        assert block[k] == buffer[..end][iter + k];
      }
    }
  }

  /** utf8ToUtf16: without SSE2 the UTF-16 form of the text is appended; with it, exactly when
      every converted block repeats its first eight octets. */
  method Utf8ToUtf16(buffer: seq<bv8>, base: nat, next: bv8, hasSse2: bool, dest: seq<bv16>)
    returns (out: seq<bv16>)
    requires Utf8(buffer)
    ensures out == dest + EncodeAll16(DecodeAll8(buffer)) <==> !hasSse2 || HalvesAgree(buffer, base, |buffer|)
  {
    hide Widen, Widen16, Octets, Ascii, DecodeAll8, EncodeAll16, HalvesAgree;
    var iter := 0;
    out := dest;
    if hasSse2 {
      iter, out := Utf8ToUtf16Partial(buffer, base, next, dest);
      AsciiPrefix(buffer, iter, false);
      EncodeAscii16(buffer[..iter], DecodeAll8(buffer[iter..]));
      ghost var rest := EncodeAll16(DecodeAll8(buffer[iter..]));
      AppendEqual(out, dest + Widen16(buffer[..iter]), rest, rest);
      assert dest + (Widen16(buffer[..iter]) + rest) == dest + Widen16(buffer[..iter]) + rest;
    } else {
      assert buffer[0..] == buffer;
    }
    out := Utf8ToUtf16Scalar(buffer, iter, out);
  }

  /** Two aligned blocks of letters of which only the first octet differs from the others. */
  lemma HalvesDepart(buffer: seq<bv8>)
    requires |buffer| == 32 && buffer[0] == 0x42 && forall k :: 1 <= k < 32 ==> buffer[k] == 0x41
    ensures Utf8(buffer) && !HalvesAgree(buffer, 0, |buffer|)
  {
    hide Utf8, Octets, OnGrid, Scan.FastEnd, Scan.Gap;
    AsciiIsUtf8(buffer);
    FirstOfTwo();
    assert buffer[..16] == [0x42] + buffer[1..16];
    assert InBlock(buffer, 0, 0);
    assert buffer[0..8][0] != buffer[8..16][0];
  }

  lemma FirstOfTwo()
    ensures OnGrid(0, 0) && Sse2.FastEnd(32) == 32
  {
  }

  lemma AsciiIsUtf8(s: seq<bv8>)
    requires Ascii(s)
    ensures Utf8(s)
  {
    assert s[..|s|] == s && s[|s|..] == [];
    AsciiPrefix(s, |s|, false);
  }
}
