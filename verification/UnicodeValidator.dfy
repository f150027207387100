/** validateUtf8 and scanAscii (src/ge/text/UnicodeUtil.cpp), with scanAscii_sse2 of
    src/ge/text/UnicodeUtil_sse2.cpp. */
module UnicodeValidator {
  import opened Utf
  import opened UnicodeUtil

  const BOM: seq<bv8> := [0xEF, 0xBB, 0xBF]

  // ---- scanAscii ----

  /** The shapes of the scan: words of 8 octets, of which the `size_t` of a 32-bit build tests
      only the first four (HalfWords), or SSE2 blocks of 16 octets that start only at multiples
      of 32. */
  datatype Scan = Words | HalfWords | Sse2 {
    function Step(): nat { if Sse2? then 16 else 8 }

    /** How many octets one load tests, which must be aligned to as many. */
    function Tested(): nat { if Sse2? then 16 else if Words? then 8 else 4 }

    predicate AtStart(address: nat) { if Sse2? then address % 32 == 0 else address % 8 == 0 }

    predicate AtStep(address: nat) { if Sse2? then address % 16 == 0 else address % 8 == 0 }

    predicate AtLoad(address: nat) { if HalfWords? then address % 4 == 0 else AtStep(address) }

    /** The address from which no further block fits. */
    function FastEnd(end: nat): nat { if Sse2? then end - end % 32 else end - end % 8 }

    /** Distance from address `base` to the next address the block loop may start at. */
    function Gap(base: nat): nat { if Sse2? then (32 - base % 32) % 32 else (8 - base % 8) % 8 }
  }

  lemma GapIsNext(base: nat, scan: Scan, k: nat)
    ensures scan.AtStart(base + scan.Gap(base))
    ensures k < scan.Gap(base) ==> !scan.AtStart(base + k)
  {
    if scan.Sse2? {
      NextMultiple32(base, k);
    } else {
      NextMultiple8(base, k);
    }
  }

  lemma NextMultiple8(base: nat, k: nat)
    ensures (base + (8 - base % 8) % 8) % 8 == 0
    ensures k < (8 - base % 8) % 8 ==> (base + k) % 8 != 0
  {
    var q, r := base / 8, base % 8;
    assert base == 8 * q + r && (8 - r) % 8 == if r == 0 then 0 else 8 - r;
    hide *;
    if r > 0 {
      assert base + (8 - r) == 8 * (q + 1);
      if k < 8 - r {
        assert base + k == 8 * q + (r + k);
      }
    }
  }

  lemma NextMultiple32(base: nat, k: nat)
    ensures (base + (32 - base % 32) % 32) % 32 == 0
    ensures k < (32 - base % 32) % 32 ==> (base + k) % 32 != 0
  {
    var q, r := base / 32, base % 32;
    assert base == 32 * q + r && (32 - r) % 32 == if r == 0 then 0 else 32 - r;
    hide *;
    if r > 0 {
      assert base + (32 - r) == 32 * (q + 1);
      if k < 32 - r {
        assert base + k == 32 * q + (r + k);
      }
    }
  }

  lemma BlockFits(address: nat, end: nat, scan: Scan)
    requires scan.AtStep(address) && address < scan.FastEnd(end)
    ensures address + scan.Step() <= scan.FastEnd(end) <= end && scan.AtStep(address + scan.Step())
  {
    if scan.Sse2? {
      assert address == 16 * (address / 16);
      StepUp(16, address / 16, 2 * (end / 32));
    } else {
      assert address == 8 * (address / 8);
      StepUp(8, address / 8, end / 8);
    }
  }

  lemma StepUp(m: nat, k: nat, q: nat)
    requires m == 8 || m == 16
    ensures m * k < m * q ==> m * k + m <= m * q
    ensures (m * k + m) % m == 0
  {
    assert m * k + m == m * (k + 1);
  }

  /** Where blocks start, loads are aligned; and a load below the rounded-down end stays in front
      of it. */
  lemma LoadFits(address: nat, end: nat, scan: Scan)
    ensures scan.AtStep(address) ==> scan.AtLoad(address)
    ensures scan.AtLoad(address) && address < scan.FastEnd(end) ==> address + scan.Tested() <= end
  {
    if scan.HalfWords? {
      LoadFits4(address, end);
    } else if scan.AtLoad(address) && address < scan.FastEnd(end) {
      BlockFits(address, end, scan);
    }
  }

  lemma LoadFits4(address: nat, end: nat)
    ensures address % 8 == 0 ==> address % 4 == 0
    ensures address % 4 == 0 && address < end - end % 8 ==> address + 4 <= end
  {
    var k, q := address / 4, end / 8;
    assert address % 8 == 0 ==> address == 4 * (2 * (address / 8));
    assert address % 4 == 0 ==> address == 4 * k;
    assert end - end % 8 == 8 * q <= end;
    hide *;
    assert 4 * k < 8 * q ==> 4 * k + 4 <= 8 * q;
  }

  lemma StartIsStep(address: nat, scan: Scan)
    ensures scan.AtStart(address) ==> scan.AtStep(address)
    ensures scan.FastEnd(address) <= address
  {
    if scan.Sse2? && scan.AtStart(address) {
      TwoBlocks(address, address / 32);
    }
  }

  lemma TwoBlocks(address: nat, k: nat)
    requires address == 32 * k
    ensures address % 16 == 0
  {
    assert address == 16 * (2 * k);
  }

  lemma StepsApart(p: nat, q: nat, scan: Scan)
    ensures scan.AtStep(p) && scan.AtStep(q) && p < q ==> p + scan.Step() <= q
  {
    if scan.Sse2? {
      StepUp(16, p / 16, q / 16);
    } else {
      StepUp(8, p / 8, q / 8);
    }
  }

  /** An aligned load of what one turn tests: the processor asks for the alignment, the buffer
      for the bounds. */
  method LoadBlock(buffer: seq<bv8>, base: nat, iter: nat, scan: Scan) returns (block: seq<bv8>)
    requires scan.AtLoad(base + iter) && iter + scan.Tested() <= |buffer|
    ensures block == buffer[iter..iter + scan.Tested()]
  {
    block := buffer[iter..iter + scan.Tested()];
  }

  lemma HighBit(b: bv8)
    ensures b & 0x80 != 0 <==> b >= 0x80
  {
  }

  /** The bit test on a word or block: is the top bit of any octet set? */
  predicate TopBitSet(block: seq<bv8>) {
    exists k :: 0 <= k < |block| && block[k] & 0x80 != 0
  }

  lemma TopBitIsAscii(block: seq<bv8>)
    ensures TopBitSet(block) <==> !Ascii(block)
  {
    forall k | 0 <= k < |block| ensures block[k] & 0x80 != 0 <==> block[k] >= 0x80 {
      HighBit(block[k]);
    }
  }

  /** The first wide load would be taken off its alignment: the octet loop stopped at a
      non-ASCII octet before the first aligned address, and the block loop still starts. */
  predicate Strays(length: nat, base: nat, scan: Scan, stop: nat) {
    && stop < scan.Gap(base)
    && !scan.AtLoad(base + stop)
    && base + stop < scan.FastEnd(base + length)
  }

  predicate AtMultiple(base: nat, k: nat, m: nat)
    requires m > 0
  {
    (base + k) % m == 0
  }

  /** Blocks start at multiples of this. */
  function BlockStart(scan: Scan): nat {
    if scan.Sse2? then 32 else 8
  }

  /** The same in addresses: no block may start up to the stop, one may end behind it, and the stop
      is off the alignment of a load. */
  lemma StraysExactly(length: nat, base: nat, scan: Scan, stop: nat)
    ensures var start := BlockStart(scan);
      var load := if scan.Sse2? then 16 else if scan.Words? then 8 else 4;
      Strays(length, base, scan, stop) <==>
        && !AtMultiple(base, stop, load)
        && (forall k: nat :: k <= stop ==> !AtMultiple(base, k, start))
        && (exists k: nat :: stop < k <= length && AtMultiple(base, k, start))
  {
    NoStartYet(base, scan, stop);
    EndBehind(length, base, scan, stop);
    hide Scan.Gap, Scan.FastEnd;
  }

  lemma NoStartYet(base: nat, scan: Scan, stop: nat)
    ensures stop < scan.Gap(base) <==>
      forall k: nat :: k <= stop ==> !AtMultiple(base, k, BlockStart(scan))
  {
    var gap, start := scan.Gap(base), BlockStart(scan);
    GapIsNext(base, scan, 0);
    assert AtMultiple(base, gap, start);
    hide Scan.Gap;
    forall k: nat | k < gap ensures !AtMultiple(base, k, start) {
      GapIsNext(base, scan, k);
    }
    hide AtMultiple;
  }

  lemma EndBehind(length: nat, base: nat, scan: Scan, stop: nat)
    ensures base + stop < scan.FastEnd(base + length) <==>
      exists k: nat :: stop < k <= length && AtMultiple(base, k, BlockStart(scan))
  {
    var end, start := scan.FastEnd(base + length), BlockStart(scan);
    LastMultiple(base + length, scan);
    if base + stop < end {
      assert AtMultiple(base, end - base, start);
    }
    hide Scan.FastEnd;
    forall k: nat | stop < k <= length && AtMultiple(base, k, start) ensures base + stop < end {
      NoneBehind(base + length, scan, base + k);
    }
  }

  lemma LastMultiple(end: nat, scan: Scan)
    ensures scan.FastEnd(end) <= end && scan.FastEnd(end) % BlockStart(scan) == 0
  {
    Rounded32(end);
    Rounded8(end);
    hide AtMultiple;
  }

  lemma Rounded32(end: nat)
    ensures 0 <= end - end % 32 <= end && (end - end % 32) % 32 == 0
  {
    assert end - end % 32 == 32 * (end / 32);
  }

  lemma Rounded8(end: nat)
    ensures 0 <= end - end % 8 <= end && (end - end % 8) % 8 == 0
  {
    assert end - end % 8 == 8 * (end / 8);
  }

  lemma NoneBehind(end: nat, scan: Scan, address: nat)
    requires address <= end && address % BlockStart(scan) == 0
    ensures address <= scan.FastEnd(end)
  {
    if scan.Sse2? {
      assert 32 * (address / 32) <= 32 * (end / 32);
    } else {
      assert 8 * (address / 8) <= 8 * (end / 8);
    }
  }

  /** The tested octets of the word at `p` are ASCII and so is all before them, but not all that
      is then skipped. */
  predicate MisreadAt(buffer: seq<bv8>, base: nat, scan: Scan, p: nat) {
    && scan.AtStep(base + p) && base + p < scan.FastEnd(base + |buffer|)
    && p + scan.Step() <= |buffer| && scan.Tested() <= scan.Step()
    && Ascii(buffer[..p + scan.Tested()]) && !Ascii(buffer[..p + scan.Step()])
  }

  predicate Misreads(buffer: seq<bv8>, base: nat, scan: Scan) {
    exists p: nat :: p < |buffer| && MisreadAt(buffer, base, scan, p)
  }

  lemma OnlyHalfWordsMisread(buffer: seq<bv8>, base: nat, scan: Scan)
    requires !scan.HalfWords?
    ensures !Misreads(buffer, base, scan)
  {
    hide Ascii, Scan.AtStep, Scan.FastEnd;
  }

  /** In a 32-bit build a word is misread exactly where four ASCII octets at a multiple of 8, with
      nothing but ASCII before them, stand in front of four that are not all ASCII. */
  lemma MisreadsExactly(buffer: seq<bv8>, base: nat)
    ensures Misreads(buffer, base, HalfWords) <==>
      exists p: nat :: AtMultiple(base, p, 8) && p + 8 <= |buffer| && Ascii(buffer[..p + 4]) && !Ascii(buffer[..p + 8])
  {
    hide Ascii, MisreadAt, AtMultiple;
    forall p: nat ensures p < |buffer| && MisreadAt(buffer, base, HalfWords, p) <==>
      AtMultiple(base, p, 8) && p + 8 <= |buffer| && Ascii(buffer[..p + 4]) && !Ascii(buffer[..p + 8])
    {
      MisreadIs(buffer, base, p);
    }
  }

  lemma MisreadIs(buffer: seq<bv8>, base: nat, p: nat)
    ensures p < |buffer| && MisreadAt(buffer, base, HalfWords, p) <==>
      AtMultiple(base, p, 8) && p + 8 <= |buffer| && Ascii(buffer[..p + 4]) && !Ascii(buffer[..p + 8])
  {
    FitsBehind(|buffer|, base, p);
    hide Ascii, Scan.FastEnd;
  }

  lemma FitsBehind(length: nat, base: nat, p: nat)
    ensures AtMultiple(base, p, 8) && p + 8 <= length ==> base + p < HalfWords.FastEnd(base + length)
  {
    if AtMultiple(base, p, 8) && p + 8 <= length {
      var a, end := base + p, base + length;
      assert a == 8 * (a / 8);
      hide AtMultiple;
      assert 8 * (a / 8) + 8 <= 8 * (end / 8);
    }
  }

  lemma AsciiUpTo(buffer: seq<bv8>, n: nat, m: nat)
    requires n <= m <= |buffer| && Ascii(buffer[..m])
    ensures Ascii(buffer[..n]) && Ascii(buffer[n..m])
  {
    assert buffer[..n] == buffer[..m][..n] && buffer[n..m] == buffer[..m][n..];
  }

  lemma AsciiOn(buffer: seq<bv8>, n: nat, m: nat)
    requires n <= m <= |buffer| && Ascii(buffer[..n]) && Ascii(buffer[n..m])
    ensures Ascii(buffer[..m])
  {
    assert buffer[..m] == buffer[..n] + buffer[n..m];
  }

  lemma AsciiShorter(buffer: seq<bv8>, n: nat, m: nat)
    ensures n <= m <= |buffer| && Ascii(buffer[..m]) ==> Ascii(buffer[..n])
  {
    if n <= m <= |buffer| && Ascii(buffer[..m]) {
      AsciiUpTo(buffer, n, m);
    }
  }

  lemma AsciiOctet(buffer: seq<bv8>, m: nat, k: nat)
    ensures k < m <= |buffer| && Ascii(buffer[..m]) ==> buffer[k] < 0x80
  {
    assert k < m <= |buffer| ==> buffer[..m][k] == buffer[k];
  }

  lemma TestedWithin(scan: Scan)
    ensures 4 <= scan.Tested() <= scan.Step() <= 16
    ensures !scan.HalfWords? ==> scan.Tested() == scan.Step()
  {
  }

  /** A misread word lies behind everything that is ASCII from its start to the next word, and
      reaches past no octet that is not. */
  lemma MisreadBounds(buffer: seq<bv8>, base: nat, scan: Scan, p: nat, iter: nat)
    requires MisreadAt(buffer, base, scan, p) && iter <= |buffer| && Ascii(buffer[..iter])
    ensures iter < p + scan.Step()
    ensures scan.AtStep(base + iter) ==> iter <= p
    ensures p >= scan.Gap(base)
    ensures iter <= p && iter + scan.Tested() <= |buffer| ==> Ascii(buffer[iter..iter + scan.Tested()])
    ensures iter < |buffer| && buffer[iter] >= 0x80 ==> p + scan.Tested() <= iter
  {
    assert scan.HalfWords? by {
      TestedWithin(scan);
    }
    GapIsNext(base, scan, p);
    assert scan.AtStep(base + p) && scan.AtStart(base + p) && base + p < scan.FastEnd(base + |buffer|);
    hide Ascii, Scan.AtStep, Scan.AtStart, Scan.FastEnd, Scan.Gap;
    AsciiShorter(buffer, p + 8, iter);
    StepsApart(base + p, base + iter, scan);
    if iter <= p {
      AsciiUpTo(buffer, iter + 4, p + 4);
      AsciiUpTo(buffer, iter, iter + 4);
    }
    AsciiOctet(buffer, p + 4, iter);
  }

  /** The scan ended at `iter` behind aligned blocks, or stopped on its way to the first. */
  lemma NoneMisread(buffer: seq<bv8>, base: nat, scan: Scan, iter: nat)
    requires iter <= |buffer| && Ascii(buffer[..iter])
    requires || iter == |buffer|
             || (iter < scan.Gap(base) && buffer[iter] >= 0x80)
             || (scan.AtStep(base + iter) && base + iter >= scan.FastEnd(base + |buffer|))
             || (scan.AtStep(base + iter) && iter + scan.Tested() <= |buffer|
                 && !Ascii(buffer[iter..iter + scan.Tested()]))
    ensures !Misreads(buffer, base, scan)
  {
    hide Ascii, Scan.AtStep, Scan.FastEnd, Scan.Tested, Scan.Step, Scan.Gap;
    TestedWithin(scan);
    forall p: nat | p < |buffer| ensures !MisreadAt(buffer, base, scan, p) {
      if MisreadAt(buffer, base, scan, p) {
        MisreadBounds(buffer, base, scan, p, iter);
        assert false;
      }
    }
  }

  /** One turn of the block loop that went on. */
  lemma BlockPassed(buffer: seq<bv8>, base: nat, scan: Scan, iter: nat)
    requires scan.AtStep(base + iter) && base + iter < scan.FastEnd(base + |buffer|) && iter + scan.Step() <= |buffer|
    requires iter + scan.Tested() <= |buffer| && Ascii(buffer[iter..iter + scan.Tested()])
    ensures Ascii(buffer[..iter]) ==> Ascii(buffer[..iter + scan.Step()]) || Misreads(buffer, base, scan)
  {
    hide Ascii, Scan.AtStep, Scan.FastEnd, Scan.Tested, Scan.Step;
    TestedWithin(scan);
    if Ascii(buffer[..iter]) && !Ascii(buffer[..iter + scan.Step()]) {
      AsciiOn(buffer, iter, iter + scan.Tested());
      assert MisreadAt(buffer, base, scan, iter);
    }
  }

  lemma AsciiGrowsOne(buffer: seq<bv8>, n: nat)
    requires n < |buffer| && buffer[n] < 0x80
    ensures Ascii(buffer[..n]) <==> Ascii(buffer[..n + 1])
  {
    assert buffer[..n + 1] == buffer[..n] + [buffer[n]];
  }

  /** Where the loop over single octets stopped. */
  predicate Stopped(buffer: seq<bv8>, base: nat, scan: Scan, stop: nat) {
    && stop <= |buffer| && Ascii(buffer[..stop])
    && if stop < scan.Gap(base) then stop < |buffer| ==> buffer[stop] >= 0x80 else scan.AtStep(base + stop)
  }

  lemma StopsThere(buffer: seq<bv8>, base: nat, scan: Scan, stop: nat)
    requires stop <= |buffer| && Ascii(buffer[..stop]) && stop <= scan.Gap(base)
    requires stop == |buffer| || buffer[stop] >= 128 || scan.AtStart(base + stop)
    ensures Stopped(buffer, base, scan, stop)
  {
    hide Ascii, Scan.Gap, Scan.AtStart, Scan.AtStep;
    GapIsNext(base, scan, stop);
    StartIsStep(base + stop, scan);
  }

  /** The loop up to the first address a block may start at. */
  method AlignOctets(buffer: seq<bv8>, base: nat, scan: Scan) returns (stop: nat)
    ensures Stopped(buffer, base, scan, stop)
  {
    hide *;
    stop := 0;
    assert Ascii(buffer[..0]) by { NoOctets(buffer); }
    while stop < |buffer| && buffer[stop] < 128 && !scan.AtStart(base + stop)
      invariant stop <= |buffer| && Ascii(buffer[..stop]) && stop <= scan.Gap(base)
    {
      AsciiGrowsOne(buffer, stop);
      GapIsNext(base, scan, stop);
      stop := stop + 1;
    }
    StopsThere(buffer, base, scan, stop);
  }

  lemma NoOctets(buffer: seq<bv8>)
    ensures Ascii(buffer[..0])
  {
  }

  /** A load at a stop in front of the first block sees the octet there. */
  lemma StopIsSeen(buffer: seq<bv8>, base: nat, scan: Scan, stop: nat)
    requires Stopped(buffer, base, scan, stop) && stop + scan.Tested() <= |buffer|
    requires Ascii(buffer[stop..stop + scan.Tested()])
    ensures stop >= scan.Gap(base) && scan.AtStep(base + stop)
  {
    hide Scan.Gap, Scan.AtStep;
    assert buffer[stop..stop + scan.Tested()][0] == buffer[stop];
  }

  /** The loop over blocks: `clean` tells whether every load was aligned. */
  method SkipBlocks(buffer: seq<bv8>, base: nat, scan: Scan, start: nat) returns (iter: nat, clean: bool)
    requires Stopped(buffer, base, scan, start)
    ensures start <= iter <= |buffer| && (start < scan.Gap(base) ==> iter == start)
    ensures Ascii(buffer[..iter]) <==> !Misreads(buffer, base, scan)
    ensures clean <==> !Strays(|buffer|, base, scan, start)
  {
    hide Ascii, Scan.Gap, Scan.AtLoad, Scan.AtStep, Scan.FastEnd, Scan.Step, Scan.Tested, Misreads, TopBitSet;
    var fastEnd := scan.FastEnd(base + |buffer|);
    StartIsStep(base + |buffer|, scan);
    iter, clean := start, true;
    while base + iter < fastEnd
      invariant start <= iter <= |buffer| && (start < scan.Gap(base) ==> iter == start)
      invariant Ascii(buffer[..iter]) || Misreads(buffer, base, scan)
      invariant iter == start || scan.AtStep(base + iter)
    {
      TestedWithin(scan);
      LoadFits(base + iter, base + |buffer|, scan);
      if !scan.AtLoad(base + iter) {
        NoneMisread(buffer, base, scan, iter);
        return iter, false;
      }
      var test := LoadBlock(buffer, base, iter, scan);
      TopBitIsAscii(test);
      if TopBitSet(test) {
        if Ascii(buffer[..iter]) {
          NoneMisread(buffer, base, scan, iter);
        }
        return;
      }
      if iter == start {
        StopIsSeen(buffer, base, scan, iter);
      }
      BlockFits(base + iter, base + |buffer|, scan);
      BlockPassed(buffer, base, scan, iter);
      iter := iter + scan.Step();
    }
    if Ascii(buffer[..iter]) {
      NoneMisread(buffer, base, scan, iter);
    }
  }

  /** Where the leading ASCII octets end, unless a word was misread; nothing that is not ASCII
      follows the last skipped word unnoticed. `clean` reports whether every wide load was aligned,
      and then it was inside the buffer. A stray load begins with the non-ASCII octet at `end`: a
      word then fails the test whatever its other octets are, while the SSE2 instruction faults. */
  method ScanAscii(buffer: seq<bv8>, base: nat, scan: Scan) returns (end: nat, clean: bool)
    ensures end <= |buffer| && (end < |buffer| ==> buffer[end] >= 0x80)
    ensures Ascii(buffer[..end]) <==> !Misreads(buffer, base, scan)
    ensures clean <==> !Strays(|buffer|, base, scan, end)
  {
    hide Ascii, Misreads, Scan.Gap, Scan.AtLoad, Scan.AtStep, Scan.FastEnd;
    var stop := AlignOctets(buffer, base, scan);
    var iter;
    iter, clean := SkipBlocks(buffer, base, scan, stop);
    end := iter;
    while end < |buffer| && buffer[end] < 128
      invariant iter <= end <= |buffer|
      invariant Ascii(buffer[..end]) <==> Ascii(buffer[..iter])
      invariant iter < |buffer| && buffer[iter] >= 0x80 ==> end == iter
    {
      AsciiGrowsOne(buffer, end);
      end := end + 1;
    }
  }

  /** An octet of 0x80 or more at an odd address in front of a whole block: the first wide load
      is taken there. */
  method LoadStrays(buffer: seq<bv8>, scan: Scan) returns (clean: bool)
    requires |buffer| == 64 && buffer[0] >= 0x80
    ensures !clean
  {
    hide Misreads;
    var end;
    end, clean := ScanAscii(buffer, 1, scan);
    NotMisread(buffer, 1, scan);
    FirstIsAscii(buffer, end);
  }

  lemma NotMisread(buffer: seq<bv8>, base: nat, scan: Scan)
    requires buffer != [] && buffer[0] >= 0x80
    ensures !Misreads(buffer, base, scan)
  {
    hide Ascii, Scan.AtStep, Scan.FastEnd, Scan.Gap;
    TestedWithin(scan);
    forall p: nat | p < |buffer| ensures !MisreadAt(buffer, base, scan, p) {
      if MisreadAt(buffer, base, scan, p) {
        FirstIsAscii(buffer, p + scan.Tested());
      }
    }
  }


  lemma FirstIsAscii(buffer: seq<bv8>, end: nat)
    requires end <= |buffer| && Ascii(buffer[..end])
    ensures end > 0 ==> buffer[0] < 0x80
  {
    assert end > 0 ==> buffer[..end][0] == buffer[0];
  }

  // ---- validateUtf8 ----

  /** The validator's two bounds: as the code has them (a multi-octet character must not
      end the buffer, and a four-octet form may be as small as 1 << 11), or as its comments
      mean them. */
  datatype Bounds = AsWritten | AsMeant {
    predicate PastEnd(iter: nat, n: nat, end: nat) {
      if AsWritten? then iter + n >= end else iter + n > end
    }

    function QuadMin(): bv32 { if AsWritten? then 0x800 else 0x10000 }
  }

  ghost predicate CharOk(c: seq<bv8>, bounds: Bounds) {
    Utf8Char(c) || (bounds.AsWritten? && OverlongQuad(c))
  }

  /** What the loop accepts when it starts at the front of `t`. */
  ghost predicate Accepted(t: seq<bv8>, bounds: Bounds) {
    if bounds.AsMeant? then Utf8(t)
    else t == [] || (Octets(t, true) && t[|t| - 1] < 0x80)
  }

  lemma Check2(a: bv8, b: bv8)
    requires a & 0xE0 == 0xC0
    ensures CharLen(a) == 0 || CharLen(a) == 2
    ensures Utf8Char([a, b]) <==> a & 0x1E != 0 && b & 0xC0 == 0x80
  {
  }

  lemma Check3(a: bv8, b: bv8, c: bv8)
    requires a & 0xF0 == 0xE0
    ensures CharLen(a) == 3 && !OverlongQuad([a, b, c])
    ensures Utf8Char([a, b, c]) <==>
      b & 0xC0 == 0x80 && c & 0xC0 == 0x80 && Bits3(a, b, c) >= 0x800 && IsValidCodePoint(Bits3(a, b, c))
  {
    hide Bits3;
    TailMask(b);
    TailMask(c);
    LeadMask(a);
    if b & 0xC0 == 0x80 && c & 0xC0 == 0x80 {
      Bits3Range(a, b, c);
    }
  }

  lemma OverlongValue(a: bv8, b: bv8, c: bv8, d: bv8)
    requires a == 0xF0 && 0x80 <= b <= 0x8F && c & 0xC0 == 0x80 && d & 0xC0 == 0x80
    ensures var e := 0xE0 | (b & 0x0F); e & 0xF0 == 0xE0 && Bits4(a, b, c, d) == Bits3(e, c, d)
  {
  }

  lemma Check4(a: bv8, b: bv8, c: bv8, d: bv8, bounds: Bounds)
    requires a & 0xF8 == 0xF0
    ensures CharLen(a) == 0 || CharLen(a) == 4
    ensures CharOk([a, b, c, d], bounds) <==>
      && b & 0xC0 == 0x80 && c & 0xC0 == 0x80 && d & 0xC0 == 0x80
      && Bits4(a, b, c, d) >= bounds.QuadMin() && IsValidCodePoint(Bits4(a, b, c, d))
  {
    hide Bits3, Bits4;
    TailMask(b);
    TailMask(c);
    TailMask(d);
    LeadMask(a);
    if b & 0xC0 == 0x80 && c & 0xC0 == 0x80 && d & 0xC0 == 0x80 {
      Bits4Range(a, b, c, d);
      if a == 0xF0 && b <= 0x8F {
        OverlongValue(a, b, c, d);
        Check3(0xE0 | (b & 0x0F), c, d);
      }
    }
  }

  /** A character of two or more octets ends in an octet of value 0x80 or more. */
  lemma LastOctet(c: seq<bv8>, bounds: Bounds)
    requires CharOk(c, bounds) && |c| >= 2
    ensures 2 <= |c| <= 4 && CharLen(c[0]) == |c| && c[|c| - 1] >= 0x80
  {
  }

  /** One turn of the loop at a lead octet of `n` octets: when the character fits and is
      sound the rest decides, otherwise nothing starting here is accepted. */
  lemma Turn(t: seq<bv8>, n: nat, bounds: Bounds)
    requires t != [] && 2 <= n <= 4 && (CharLen(t[0]) == 0 || CharLen(t[0]) == n)
    ensures if bounds.PastEnd(0, n, |t|) || !CharOk(t[..n], bounds)
            then !Accepted(t, bounds)
            else Accepted(t, bounds) <==> Accepted(t[n..], bounds)
  {
    hide Utf8Char, OverlongQuad, CharLen;
    if n <= |t| && CharOk(t[..n], bounds) {
      LastOctet(t[..n], bounds);
    }
  }

  /** A byte order mark in front changes nothing. */
  lemma SkipBom(s: seq<bv8>, loose: bool)
    requires |s| >= 3 && s[..3] == BOM
    ensures Octets(s, loose) <==> Octets(s[3..], loose)
  {
    assert s[0] == 0xEF && s[..3][0] == 0xEF;
    assert Utf8Char(BOM);
    hide Utf8Char, OverlongQuad;
  }

  /** The whole verdict. */
  ghost predicate Verdict(buffer: seq<bv8>, bounds: Bounds) {
    Accepted(buffer, bounds) || (bounds.AsWritten? && buffer == BOM)
  }

  lemma AfterPrefix(s: seq<bv8>, n: nat, bounds: Bounds)
    requires n <= |s| && Ascii(s[..n])
    ensures Accepted(s, bounds) <==> Accepted(s[n..], bounds)
  {
    AsciiPrefix(s, n, bounds.AsWritten?);
    hide Octets, Utf8Char, OverlongQuad;
    if n == |s| {
      assert s[..n] == s;
    }
  }

  lemma AfterBom(s: seq<bv8>, bounds: Bounds)
    requires |s| >= 3 && s[..3] == BOM
    ensures Verdict(s, bounds) <==> Accepted(s[3..], bounds)
  {
    SkipBom(s, bounds.AsWritten?);
    hide Octets, Utf8Char, OverlongQuad;
    assert s[2] == s[..3][2];
    assert s == s[..3] + s[3..];
  }

  /** What is skipped in front: memcmp finds the three octets of the mark. */
  function BomLength(buffer: seq<bv8>): (n: nat)
    ensures n <= |buffer|
  {
    if |buffer| >= 3 && buffer[..3] == BOM then 3 else 0
  }

  lemma BehindBom(buffer: seq<bv8>, bounds: Bounds)
    ensures Verdict(buffer, bounds) <==> Accepted(buffer[BomLength(buffer)..], bounds)
  {
    hide Accepted;
    if BomLength(buffer) == 3 {
      AfterBom(buffer, bounds);
    } else {
      assert buffer[0..] == buffer;
      assert |buffer| == 3 ==> buffer[..3] == buffer;
    }
  }

  lemma AfterOne(t: seq<bv8>, bounds: Bounds)
    requires t != [] && t[0] < 128
    ensures Accepted(t, bounds) <==> Accepted(t[1..], bounds)
  {
    assert t[..1] == [t[0]];
    AfterPrefix(t, 1, bounds);
  }

  lemma NothingLeft(t: seq<bv8>, bounds: Bounds)
    requires t == []
    ensures Accepted(t, bounds)
  {
  }

  lemma NoLead(t: seq<bv8>, bounds: Bounds)
    requires t != [] && t[0] >= 128
    requires t[0] & 0xE0 != 0xC0 && t[0] & 0xF0 != 0xE0 && t[0] & 0xF8 != 0xF0
    ensures !Accepted(t, bounds)
  {
    LeadMask(t[0]);
    assert CharLen(t[0]) == 0;
    hide Utf8Char, OverlongQuad, CharLen;
  }

  lemma PastEndShift(bounds: Bounds, iter: nat, n: nat, end: nat)
    requires iter <= end
    ensures bounds.PastEnd(iter, n, end) <==> bounds.PastEnd(0, n, end - iter)
    ensures !bounds.PastEnd(iter, n, end) ==> iter + n <= end
  {
  }

  lemma Check2Turn(t: seq<bv8>, bounds: Bounds)
    requires t != [] && t[0] & 0xE0 == 0xC0
    ensures bounds.PastEnd(0, 2, |t|) ==> !Accepted(t, bounds)
    ensures !bounds.PastEnd(0, 2, |t|) ==>
            |t| >= 2 && (
              if t[0] & 0x1E != 0 && t[1] & 0xC0 == 0x80 then Accepted(t, bounds) <==> Accepted(t[2..], bounds)
              else !Accepted(t, bounds))
  {
    Check2(t[0], if |t| >= 2 then t[1] else 0);
    Turn(t, 2, bounds);
    hide Accepted, Utf8Char, OverlongQuad;
    if |t| >= 2 {
      assert t[..2] == [t[0], t[1]];
    }
  }

  lemma Check3Turn(t: seq<bv8>, bounds: Bounds)
    requires t != [] && t[0] & 0xF0 == 0xE0
    ensures bounds.PastEnd(0, 3, |t|) ==> !Accepted(t, bounds)
    ensures !bounds.PastEnd(0, 3, |t|) ==>
            |t| >= 3 && (
              var val := Bits3(t[0], t[1], t[2]);
              if t[1] & 0xC0 == 0x80 && t[2] & 0xC0 == 0x80 && val >= 0x800 && IsValidCodePoint(val)
              then Accepted(t, bounds) <==> Accepted(t[3..], bounds)
              else !Accepted(t, bounds))
  {
    hide Accepted, Utf8Char, OverlongQuad, Bits3, CharLen, IsValidCodePoint;
    Check3(t[0], if |t| >= 3 then t[1] else 0, if |t| >= 3 then t[2] else 0);
    Turn(t, 3, bounds);
    if |t| >= 3 {
      assert t[..3] == [t[0], t[1], t[2]];
    }
  }

  lemma Check4Turn(t: seq<bv8>, bounds: Bounds)
    requires t != [] && t[0] & 0xF8 == 0xF0
    ensures bounds.PastEnd(0, 4, |t|) ==> !Accepted(t, bounds)
    ensures !bounds.PastEnd(0, 4, |t|) ==>
            |t| >= 4 && (
              var val := Bits4(t[0], t[1], t[2], t[3]);
              if && t[1] & 0xC0 == 0x80 && t[2] & 0xC0 == 0x80 && t[3] & 0xC0 == 0x80
                 && val >= bounds.QuadMin() && IsValidCodePoint(val)
              then Accepted(t, bounds) <==> Accepted(t[4..], bounds)
              else !Accepted(t, bounds))
  {
    hide Accepted, CharOk, Utf8Char, OverlongQuad, Bits4, CharLen, IsValidCodePoint;
    if |t| >= 4 {
      Check4(t[0], t[1], t[2], t[3], bounds);
      assert t[..4] == [t[0], t[1], t[2], t[3]];
    } else {
      Check4(t[0], 0, 0, 0, bounds);
    }
    Turn(t, 4, bounds);
  }

  /** The validating loop, from octet `start` on; `end` is where it stopped. */
  method ValidateLoop(buffer: seq<bv8>, start: nat, bounds: Bounds) returns (iter: nat)
    requires start <= |buffer|
    ensures iter == |buffer| <==> Accepted(buffer[start..], bounds)
  {
    hide *;
    iter := start;
    while iter < |buffer|
      invariant start <= iter <= |buffer|
      invariant Accepted(buffer[start..], bounds) <==> Accepted(buffer[iter..], bounds)
    {
      ghost var t := buffer[iter..];
      if buffer[iter] < 128 {
        assert t[1..] == buffer[iter + 1..];
        AfterOne(t, bounds);
        iter := iter + 1;
      } else if buffer[iter] & 0xE0 == 0xC0 {
        PastEndShift(bounds, iter, 2, |buffer|);
        Check2Turn(t, bounds);
        if bounds.PastEnd(iter, 2, |buffer|) {
          break;
        }
        if buffer[iter] & 0x1E == 0 {
          break;
        }
        if buffer[iter + 1] & 0xC0 != 0x80 {
          break;
        }
        assert t[2..] == buffer[iter + 2..];
        iter := iter + 2;
      } else {
        var len, val;
        if buffer[iter] & 0xF0 == 0xE0 {
          PastEndShift(bounds, iter, 3, |buffer|);
          Check3Turn(t, bounds);
          if bounds.PastEnd(iter, 3, |buffer|) {
            break;
          }
          if buffer[iter + 1] & 0xC0 != 0x80 || buffer[iter + 2] & 0xC0 != 0x80 {
            break;
          }
          val := Bits3(buffer[iter], buffer[iter + 1], buffer[iter + 2]);
          if val < 0x800 {
            break;
          }
          len := 3;
        } else if buffer[iter] & 0xF8 == 0xF0 {
          PastEndShift(bounds, iter, 4, |buffer|);
          Check4Turn(t, bounds);
          if bounds.PastEnd(iter, 4, |buffer|) {
            break;
          }
          if buffer[iter + 1] & 0xC0 != 0x80 || buffer[iter + 2] & 0xC0 != 0x80 || buffer[iter + 3] & 0xC0 != 0x80 {
            break;
          }
          val := Bits4(buffer[iter], buffer[iter + 1], buffer[iter + 2], buffer[iter + 3]);
          if val < bounds.QuadMin() {
            break;
          }
          len := 4;
        } else {
          NoLead(t, bounds);
          break;
        }
        if !IsValidCodePoint(val) {
          break;
        }
        assert t[len..] == buffer[iter + len..];
        iter := iter + len;
      }
    }
    NothingLeft(buffer[|buffer|..], bounds);
  }

  /** validateUtf8: behind a byte order mark scanAscii passes `end` octets, and the loop decides what
      follows them; that is the verdict on the whole unless a word was misread. An SSE2 load that
      is not clean faults, and such a call never comes to its verdict. */
  method ValidateUtf8(buffer: seq<bv8>, base: nat, scan: Scan, bounds: Bounds)
    returns (ok: bool, clean: bool, ghost end: nat)
    ensures var skip := BomLength(buffer);
      && skip + end <= |buffer| && (skip + end < |buffer| ==> buffer[skip + end] >= 0x80)
      && (Ascii(buffer[skip..skip + end]) <==> !Misreads(buffer[skip..], base + skip, scan))
      && (clean <==> !Strays(|buffer| - skip, base + skip, scan, end))
      && (ok <==> Accepted(buffer[skip + end..], bounds))
    ensures !Misreads(buffer[BomLength(buffer)..], base + BomLength(buffer), scan) ==> (ok <==> Verdict(buffer, bounds))
  {
    hide *;
    BehindBom(buffer, bounds);
    var iter := BomLength(buffer);
    var passed;
    passed, clean := ScanAscii(buffer[iter..], base + iter, scan);
    end := passed;
    assert buffer[iter..][..passed] == buffer[iter..iter + passed];
    assert buffer[iter..][passed..] == buffer[iter + passed..];
    if Ascii(buffer[iter..][..passed]) {
      AfterPrefix(buffer[iter..], passed, bounds);
    }
    iter := ValidateLoop(buffer, iter + passed, bounds);
    ok := iter == |buffer|;
  }

  /** A text that begins with a byte order mark and a character of more than one octet, in a buffer
      at a multiple of 32, is enough for a stray load. */
  method BomStrays(buffer: seq<bv8>, base: nat, bounds: Bounds) returns (clean: bool)
    requires |buffer| == 64 && base % 32 == 0 && buffer[..3] == BOM && buffer[3] >= 0x80
    ensures !clean
  {
    var ok;
    ghost var end;
    ok, clean, end := ValidateUtf8(buffer, base, Sse2, bounds);
    hide Misreads, Ascii, Accepted, Verdict;
    NotMisread(buffer[3..], base + 3, Sse2);
    assert buffer[3..][..end] == buffer[3..3 + end];
    FirstIsAscii(buffer[3..], end);
    StraysBehindMark(base, base / 32);
  }

  lemma StraysBehindMark(base: nat, k: nat)
    requires base == 32 * k
    ensures Strays(61, base + 3, Sse2, 0)
  {
    assert base + 3 == 16 * (2 * k) + 3 && (base + 3) % 16 == 3;
    assert (base + 3) % 32 == 3 && (base + 3 + 61) % 32 == 0;
  }

  /** In a 32-bit build without SSE2 an octet that no text contains is accepted. */
  method HalfWordsAccept(bounds: Bounds) returns (ok: bool)
    ensures ok && !Utf8([0x41, 0x41, 0x41, 0x41, 0xFF, 0x41, 0x41, 0x41])
  {
    var buffer: seq<bv8> := [0x41, 0x41, 0x41, 0x41, 0xFF, 0x41, 0x41, 0x41];
    var clean;
    ghost var end;
    ok, clean, end := ValidateUtf8(buffer, 0, HalfWords, bounds);
    hide *;
    NoMark(buffer);
    FifthIsMissed(buffer);
    assert buffer[0..end] == buffer[..end];
    NothingElse(buffer, end);
    NothingLeft(buffer[8..], bounds);
  }

  lemma NoMark(buffer: seq<bv8>)
    requires buffer != [] && buffer[0] == 0x41
    ensures BomLength(buffer) == 0 && buffer[0..] == buffer
  {
    assert |buffer| >= 3 ==> buffer[..3][0] == 0x41;
  }

  lemma NothingElse(buffer: seq<bv8>, end: nat)
    requires buffer == [0x41, 0x41, 0x41, 0x41, 0xFF, 0x41, 0x41, 0x41] && end <= 8
    requires end < 8 ==> buffer[end] >= 0x80
    ensures end == 8 || Ascii(buffer[..end])
  {
  }

  lemma FifthIsMissed(buffer: seq<bv8>)
    requires buffer == [0x41, 0x41, 0x41, 0x41, 0xFF, 0x41, 0x41, 0x41]
    ensures Misreads(buffer, 0, HalfWords) && Ascii(buffer[..4]) && !Utf8(buffer)
  {
    assert buffer[..8][4] == 0xFF;
    assert MisreadAt(buffer, 0, HalfWords, 0);
    AsciiPrefix(buffer, 4, false);
    assert CharLen(buffer[4..][0]) == 0;
  }

  // ---- Where the two bounds make a difference ----

  /** The octets F0 and then less than 0x90: a four-octet form of a code point below 0x10000. */
  predicate OverlongAt(b: seq<bv8>, i: int) {
    0 <= i < |b| - 1 && b[i] == 0xF0 && b[i + 1] < 0x90
  }

  lemma FrontOverlong(t: seq<bv8>, n: nat)
    requires 1 <= n <= |t| && CharOk(t[..n], AsWritten) && n == CharLen(t[0])
    ensures Utf8Char(t[..n]) <==> !OverlongAt(t, 0)
    ensures forall i :: 0 < i < n ==> !OverlongAt(t, i)
  {
    var c := t[..n];
    assert forall i :: 0 <= i < n ==> c[i] == t[i];
  }

  lemma OverlongShift(t: seq<bv8>, n: nat, i: int)
    requires n <= |t|
    ensures i >= 0 ==> (OverlongAt(t, i + n) <==> OverlongAt(t[n..], i))
  {
  }

  /** Among the texts of the loosened grammar, those of RFC 3629 are the ones without an
      overlong pair. */
  lemma {:induction false} LooseIsStrict(t: seq<bv8>)
    requires Octets(t, true)
    ensures Utf8(t) <==> forall i :: !OverlongAt(t, i)
    decreases |t|
  {
    if t != [] {
      var n := CharLen(t[0]);
      FrontOverlong(t, n);
      LooseIsStrict(t[n..]);
      hide Utf8Char, OverlongQuad, CharLen;
      forall i | i >= n ensures OverlongAt(t, i) <==> OverlongAt(t[n..], i - n) {
        OverlongShift(t, n, i - n);
      }
      forall i ensures OverlongAt(t[n..], i) ==> OverlongAt(t, i + n) {
        OverlongShift(t, n, i);
      }
      hide OverlongAt, Octets;
    }
  }

  /** The validator as written rejects a well-formed text exactly when a character of two or
      more octets ends it, unless the text is a lone byte order mark. */
  lemma AsWrittenOnWellFormed(b: seq<bv8>)
    requires Utf8(b)
    ensures Verdict(b, AsWritten) <==> b == [] || b == [0xEF, 0xBB, 0xBF] || b[|b| - 1] < 0x80
  {
    StrictIsLoose(b);
  }

  lemma {:induction false} StrictIsLoose(b: seq<bv8>)
    requires Utf8(b)
    ensures Octets(b, true)
    decreases |b|
  {
    if b != [] {
      StrictIsLoose(b[CharLen(b[0])..]);
    }
  }

  /** What the validator as written accepts is well formed exactly when no octet F0 is
      followed by one below 0x90. */
  lemma AsWrittenSound(b: seq<bv8>)
    requires Verdict(b, AsWritten)
    ensures Utf8(b) <==> forall i :: !OverlongAt(b, i)
  {
    if b == BOM {
      assert Utf8Char(b[..3]);
      StrictIsLoose(b);
    }
    LooseIsStrict(b);
  }

  /** So the two bounds agree on every buffer that ends in a single octet and has no overlong
      pair; with another end they part exactly on well-formed texts, and with such a pair exactly
      on accepted ones. */
  lemma WhereBoundsAgree(b: seq<bv8>)
    ensures var agree := Verdict(b, AsWritten) <==> Verdict(b, AsMeant);
      var single := b == [] || b == BOM || b[|b| - 1] < 0x80;
      var overlong := exists i :: OverlongAt(b, i);
      && (single && !overlong ==> agree)
      && (!single ==> (agree <==> !Utf8(b)))
      && (overlong ==> (agree <==> !Verdict(b, AsWritten)))
  {
    if Utf8(b) {
      AsWrittenOnWellFormed(b);
      StrictIsLoose(b);
      LooseIsStrict(b);
    }
    if Verdict(b, AsWritten) {
      AsWrittenSound(b);
    }
    hide Octets, OverlongAt;
  }

  /** U+00E9 alone is rejected, and an overlong U+20AC before a letter is accepted. */
  lemma AsWrittenDeparts()
    ensures var e := [0xC3, 0xA9]; Utf8(e) && !Verdict(e, AsWritten)
    ensures var o := [0xF0, 0x82, 0x82, 0xAC, 0x41]; !Utf8(o) && Verdict(o, AsWritten)
  {
    var e: seq<bv8> := [0xC3, 0xA9];
    assert Utf8Char(e[..2]) && e[2..] == [];
    AsWrittenOnWellFormed(e);
    var o: seq<bv8> := [0xF0, 0x82, 0x82, 0xAC, 0x41];
    assert 0xE0 | (0x82 & 0x0F) == (0xE2 as bv8);
    assert o[..4] == [0xF0, 0x82, 0x82, 0xAC] && o[4..] == [0x41];
    assert OverlongQuad(o[..4]);
    var tail: seq<bv8> := [0x41];
    assert Utf8Char(tail[..1]) && tail[1..] == [];
    assert Octets(o[4..], true);
    assert Octets(o, true);
    LooseIsStrict(o);
    assert OverlongAt(o, 0);
  }
}
