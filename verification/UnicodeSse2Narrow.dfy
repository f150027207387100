/** The block prefixes of src/ge/text/UnicodeUtil_sse2.cpp towards UTF-8 and the converters that
    run them. A unit of either width appears as its 32-bit value. */
module UnicodeSse2Narrow {
  import opened Basics
  import opened Utf
  import opened UnicodeUtil

  predicate Ascii32(s: seq<bv32>) {
    forall k :: 0 <= k < |s| ==> s[k] < 0x80
  }

  // ---- Saturating packs of one lane, two's complement in the bits of the lane ----

  function PackUnsigned16(u: bv32): bv8 {
    if u >= 0x8000 then 0 else if u > 0xFF then 0xFF else Low8(u)
  }

  function PackSigned32(u: bv32): bv16 {
    if u >= 0x8000_0000 then (if u < 0xFFFF_8000 then 0x8000 else Low16(u))
    else if u > 0x7FFF then 0x7FFF else Low16(u)
  }

  function PackSigned16(v: bv16): bv8 {
    if v >= 0x8000 then (if v < 0xFF80 then 0x80 else Low8(v as bv32))
    else if v > 0x7F then 0x7F else Low8(v as bv32)
  }

  /** Units of two octets, eight to a register, or of four octets, four to a register. */
  datatype Width = Two | Four {
    function Octets(): nat { if Two? then 2 else 4 }

    function Lanes(): nat { if Two? then 8 else 4 }

    /** The mask of the AND, and the bits of it that the byte mask then picks. */
    function AndMask(): bv32 { if Two? then 0xFF80 else 0xFFFF_FF80 }

    function TopBits(): bv32 { if Two? then 0x8080 else 0x8080_8080 }

    predicate Passes(u: bv32) { (u & AndMask()) & TopBits() == 0 }

    function Pack(u: bv32): bv8 { if Two? then PackUnsigned16(u) else PackSigned16(PackSigned32(u)) }

    function Address(base: nat, k: nat): nat { base + Octets() * k }

    /** The address from which no further block fits. */
    function FastEnd(base: nat, length: nat): nat { Address(base, length) - Address(base, length) % 32 }
  }

  predicate Passing(s: seq<bv32>, width: Width) {
    forall k :: 0 <= k < |s| ==> width.Passes(s[k])
  }

  function Packed(s: seq<bv32>, width: Width): (r: seq<bv8>)
    ensures |r| == |s|
  {
    if s == [] then [] else [width.Pack(s[0])] + Packed(s[1..], width)
  }

  /** A unit passes exactly when each of its octets would pass for ASCII. */
  lemma PassesExactly(u: bv32, width: Width)
    requires width.Two? ==> u < 0x1_0000
    ensures width.Passes(u) <==>
      (u & 0xFF) < 0x80 && ((u >> 8) & 0xFF) < 0x80 && ((u >> 16) & 0xFF) < 0x80 && (u >> 24) < 0x80
  {
  }

  /** A pack cuts what the lane holds, as a signed number, to the range of an unsigned octet for
      units of two octets and of a signed one for units of four. */
  lemma PackSaturates(u: bv32, width: Width)
    ensures width.Two? && u < 0x8000 ==> width.Pack(u) == if u > 0xFF then 0xFF else (u & 0xFF) as bv8
    ensures width.Two? && 0x8000 <= u < 0x1_0000 ==> width.Pack(u) == 0
    ensures width.Four? && u < 0x8000_0000 ==> width.Pack(u) == if u > 0x7F then 0x7F else (u & 0xFF) as bv8
    ensures width.Four? && u >= 0x8000_0000 ==> width.Pack(u) == if u < 0xFFFF_FF80 then 0x80 else (u & 0xFF) as bv8
  {
  }

  lemma AsciiLane(u: bv32, width: Width)
    requires u < 0x80
    ensures width.Passes(u) && Encode8(u) == [width.Pack(u)]
  {
  }

  lemma WideLane(u: bv32)
    ensures |Encode8(u)| >= 1 && (|Encode8(u)| == 1 <==> u < 0x80)
  {
  }

  lemma {:induction false} PackedAscii(s: seq<bv32>, width: Width)
    requires Ascii32(s)
    ensures Packed(s, width) == EncodeAll8(s) && Passing(s, width)
  {
    hide Encode8, Width.Pack, Width.Passes;
    if s != [] {
      AsciiLane(s[0], width);
      PackedAscii(s[1..], width);
      assert forall k :: 1 <= k < |s| ==> s[k] == s[1..][k - 1];
    }
  }

  /** A code point of 0x80 or more takes more than the one octet a lane leaves for it. */
  lemma {:induction false} EncodedLonger(s: seq<bv32>)
    ensures |EncodeAll8(s)| >= |s|
    ensures |EncodeAll8(s)| == |s| ==> Ascii32(s)
  {
    hide Encode8;
    if s != [] {
      WideLane(s[0]);
      EncodedLonger(s[1..]);
      if |EncodeAll8(s)| == |s| {
        assert s == [s[0]] + s[1..];
      }
    }
  }

  lemma {:induction false} EncodeSplit(s: seq<bv32>, t: seq<bv32>)
    ensures EncodeAll8(s + t) == EncodeAll8(s) + EncodeAll8(t)
  {
    if s == [] {
      assert s + t == t;
    } else {
      hide Encode8, EncodeAll8;
      EncodeSplit(s[1..], t);
      EncodeCons(s[0], s[1..]);
      EncodeCons(s[0], s[1..] + t);
      assert s == [s[0]] + s[1..] && s + t == [s[0]] + (s[1..] + t);
      Regroup(Encode8(s[0]), EncodeAll8(s[1..]), EncodeAll8(t));
    }
  }

  // ---- Where the prefix goes wrong ----

  predicate Aligned(base: nat, width: Width, p: nat) {
    width.Address(base, p) % 16 == 0
  }

  /** No unit before `stop` is at a multiple of 32. */
  ghost predicate NoStart(base: nat, width: Width, stop: nat) {
    forall k: nat :: k < stop ==> width.Address(base, k) % 32 != 0
  }

  /** Unit `p` starts a register of the block loop. */
  predicate StartsBlock(length: nat, base: nat, width: Width, p: nat) {
    && Aligned(base, width, p)
    && (width.Address(base, p) % 32 == 0 || p >= width.Lanes())
    && width.Address(base, p) < width.FastEnd(base, length)
    && p + width.Lanes() <= length
  }

  /** The first address that is a multiple of 32: there the code looks at one unit again. */
  predicate FirstStart(base: nat, width: Width, p: nat) {
    width.Address(base, p) % 32 == 0 && p < 2 * width.Lanes()
  }

  /** Everything before `p` is ASCII, and the register at `p` passes the test though it is not. */
  predicate Misread(units: seq<bv32>, base: nat, width: Width, p: nat) {
    && StartsBlock(|units|, base, width, p) && Ascii32(units[..p])
    && (FirstStart(base, width, p) ==> units[p] < 0x80)
    && var block := units[p..p + width.Lanes()];
      Passing(block, width) && !Ascii32(block)
  }

  predicate Missed(units: seq<bv32>, base: nat, width: Width) {
    exists p: nat :: p <= |units| && Misread(units, base, width, p)
  }

  lemma BlockFits(length: nat, base: nat, width: Width, p: nat)
    requires Aligned(base, width, p) && width.Address(base, p) < width.FastEnd(base, length)
    ensures p + width.Lanes() <= length
    ensures width.Address(base, p + width.Lanes()) == width.Address(base, p) + 16 <= width.FastEnd(base, length)
    ensures Aligned(base, width, p + width.Lanes())
  {
    RegisterFits(width.Address(base, p), width.Address(base, length));
    NextRegister(base, width, p);
    AddressGrows(base, width, p + width.Lanes(), length);
    hide Width.Address, Width.Lanes;
  }

  /** The end of the block loop is the last multiple of 32 up to the end of the units, each of two or
      four octets. */
  lemma FastEndExactly(base: nat, width: Width, length: nat)
    ensures var end := base + (if width.Two? then 2 else 4) * length;
      width.FastEnd(base, length) % 32 == 0 && width.FastEnd(base, length) <= end < width.FastEnd(base, length) + 32
  {
    Rounded(width.Address(base, length));
  }

  lemma Rounded(end: nat)
    ensures 0 <= end - end % 32 <= end < end - end % 32 + 32 && (end - end % 32) % 32 == 0
  {
    assert end - end % 32 == 32 * (end / 32);
  }

  lemma NextRegister(base: nat, width: Width, p: nat)
    ensures width.Address(base, p + width.Lanes()) == width.Address(base, p) + 16
  {
  }

  lemma RegisterFits(start: nat, end: nat)
    requires start % 16 == 0 && start < end - end % 32
    ensures start + 16 <= end - end % 32 <= end && (start + 16) % 16 == 0
  {
    var k, q := start / 16, end / 32;
    assert start == 16 * k && end - end % 32 == 16 * (2 * q) <= end;
    hide *;
    assert 16 * k + 16 <= 16 * (2 * q);
    assert start + 16 == 16 * (k + 1);
  }

  /** A register starts where no unit before `stop` is at a multiple of 32, so not before it. */
  lemma NoBlockBefore(length: nat, base: nat, width: Width, stop: nat, p: nat)
    requires StartsBlock(length, base, width, p)
    requires NoStart(base, width, stop)
    ensures p >= stop
    ensures p == stop ==> FirstStart(base, width, p)
  {
    var n, a := width.Lanes(), width.Address(base, p);
    assert a % 16 == 0 && (a % 32 == 0 || p >= n);
    hide NoStart, StartsBlock, Aligned, Width.Address;
    Halfway(a);
    if a % 32 != 0 {
      AddressBack(base, width, p, 1);
      NotBefore(base, width, stop, p - n);
    } else {
      NotBefore(base, width, stop, p);
      if p >= 2 * n {
        AddressBack(base, width, p, 2);
        NotBefore(base, width, stop, p - 2 * n);
      }
    }
  }

  lemma NotBefore(base: nat, width: Width, stop: nat, k: nat)
    requires NoStart(base, width, stop) && width.Address(base, k) % 32 == 0
    ensures k >= stop
  {
  }

  lemma AddressBack(base: nat, width: Width, p: nat, m: nat)
    requires m == 1 || m == 2
    requires p >= m * width.Lanes()
    ensures width.Address(base, p - m * width.Lanes()) == width.Address(base, p) - 16 * m
  {
  }

  lemma Halfway(a: int)
    ensures a % 16 == 0 && a % 32 != 0 ==> (a - 16) % 32 == 0
    ensures a % 32 == 0 ==> (a - 32) % 32 == 0
  {
    var k := a / 16;
    assert a % 16 == 0 ==> a == 16 * k && (a % 32 == 0 <==> k % 2 == 0);
    assert k % 2 != 0 ==> k - 1 == 2 * ((k - 1) / 2);
    assert a % 32 == 0 ==> a - 32 == 32 * (a / 32 - 1);
  }

  /** Registers do not overlap. */
  lemma BlocksApart(base: nat, width: Width, p: nat, q: nat)
    requires Aligned(base, width, p) && Aligned(base, width, q) && p < q
    ensures p + width.Lanes() <= q
  {
    AddressGrows(base, width, q, p);
    Apart(width.Address(base, p), width.Address(base, q));
  }

  lemma Apart(a: nat, b: nat)
    requires a % 16 == 0 && b % 16 == 0 && a < b
    ensures a + 16 <= b
  {
    assert 16 * (a / 16) + 16 <= 16 * (b / 16);
  }

  lemma StartIsAligned(base: nat, width: Width, p: nat)
    ensures width.Address(base, p) % 32 == 0 ==> Aligned(base, width, p)
  {
    if width.Address(base, p) % 32 == 0 {
      assert width.Address(base, p) == 16 * (2 * (width.Address(base, p) / 32));
    }
  }

  lemma AsciiWithin(s: seq<bv32>, n: nat, a: nat, b: nat)
    requires a <= b <= n <= |s| && Ascii32(s[..n])
    ensures Ascii32(s[a..b])
  {
    assert forall k :: 0 <= k < b - a ==> s[a..b][k] == s[..n][a + k];
  }

  /** The alignment loop stopped at `stop` and the block loop did not start. */
  lemma NothingMissed(units: seq<bv32>, base: nat, width: Width, stop: nat)
    requires stop <= |units| && Ascii32(units[..stop])
    requires NoStart(base, width, stop)
    requires stop < |units| ==> units[stop] >= 0x80
    ensures !Missed(units, base, width)
  {
    forall p: nat | p <= |units| ensures !Misread(units, base, width, p) {
      if StartsBlock(|units|, base, width, p) {
        NoBlockBefore(|units|, base, width, stop, p);
        if p > stop {
          assert units[..p][stop] == units[stop];
        }
      }
    }
  }

  /** The block loop read only ASCII from `stop` on and ended at `iter`. */
  lemma NothingMissedUpTo(units: seq<bv32>, base: nat, width: Width, stop: nat, iter: nat)
    requires stop <= iter <= |units| && Ascii32(units[..iter])
    requires NoStart(base, width, stop)
    requires Aligned(base, width, iter)
    requires || width.Address(base, iter) >= width.FastEnd(base, |units|)
             || (iter + width.Lanes() <= |units| && !Passing(units[iter..iter + width.Lanes()], width))
    ensures !Missed(units, base, width)
  {
    var n := width.Lanes();
    hide Passing, Ascii32, Width.Address, Width.FastEnd;
    forall p: nat | p <= |units| ensures !Misread(units, base, width, p) {
      if StartsBlock(|units|, base, width, p) {
        if p < iter {
          BlocksApart(base, width, p, iter);
          AsciiWithin(units, iter, p, p + n);
        } else if width.Address(base, iter) >= width.FastEnd(base, |units|) {
          AddressGrows(base, width, iter, p);
        } else if iter < p {
          BlocksApart(base, width, iter, p);
          FailedNotAscii(units, width, iter, p);
        }
      }
    }
  }

  lemma AddressGrows(base: nat, width: Width, p: nat, q: nat)
    ensures p <= q <==> width.Address(base, p) <= width.Address(base, q)
    ensures width.FastEnd(base, q) <= width.Address(base, q)
  {
  }

  lemma FailedNotAscii(units: seq<bv32>, width: Width, iter: nat, p: nat)
    requires iter + width.Lanes() <= p <= |units| && !Passing(units[iter..iter + width.Lanes()], width)
    ensures !Ascii32(units[..p])
  {
    if Ascii32(units[..p]) {
      AsciiWithin(units, p, iter, iter + width.Lanes());
      PackedAscii(units[iter..iter + width.Lanes()], width);
    }
  }

  // ---- The prefix ----

  /** `*iter`, read also at the end of the buffer, where `next` stands. */
  function Peek(units: seq<bv32>, iter: nat, next: bv32): bv32 {
    if iter < |units| then units[iter] else next
  }

  /** An aligned load of one register. */
  method LoadRegister(units: seq<bv32>, base: nat, iter: nat, width: Width) returns (loaded: seq<bv32>)
    requires Aligned(base, width, iter) && iter + width.Lanes() <= |units|
    ensures loaded == units[iter..iter + width.Lanes()]
  {
    loaded := units[iter..iter + width.Lanes()];
  }

  lemma NothingYet(units: seq<bv32>, base: nat, width: Width)
    ensures NoStart(base, width, 0)
    ensures Ascii32(units[..0]) && Passing(units[..0], width) && EncodeAll8(units[..0]) == []
  {
  }

  lemma NoStartGrows(base: nat, width: Width, k: nat)
    requires NoStart(base, width, k) && width.Address(base, k) % 32 != 0
    ensures NoStart(base, width, k + 1)
  {
  }

  lemma OneUnit(units: seq<bv32>, iter: nat, width: Width)
    requires iter < |units| && units[iter] < 0x80 && Ascii32(units[..iter])
    ensures Ascii32(units[..iter + 1]) && Passing(units[..iter + 1], width)
    ensures EncodeAll8(units[..iter + 1]) == EncodeAll8(units[..iter]) + [Low8(units[iter])]
  {
    assert units[..iter + 1] == units[..iter] + [units[iter]];
    PackedAscii(units[..iter + 1], width);
    EncodeSplit(units[..iter], [units[iter]]);
    assert EncodeAll8([units[iter]]) == Encode8(units[iter]);
  }

  lemma OneRegister(units: seq<bv32>, iter: nat, width: Width)
    requires iter + width.Lanes() <= |units| && Passing(units[..iter], width)
    requires Passing(units[iter..iter + width.Lanes()], width)
    ensures var n := width.Lanes(); var block := units[iter..iter + n];
      && Passing(units[..iter + n], width)
      && EncodeAll8(units[..iter + n]) == EncodeAll8(units[..iter]) + EncodeAll8(block)
      && |EncodeAll8(block)| >= n
      && (if Ascii32(block) then Packed(block, width) == EncodeAll8(block) else |EncodeAll8(block)| > n)
      && (Ascii32(units[..iter]) && Ascii32(block) ==> Ascii32(units[..iter + n]))
  {
    var n := width.Lanes();
    var block := units[iter..iter + n];
    assert units[..iter + n] == units[..iter] + block;
    EncodeSplit(units[..iter], block);
    EncodedLonger(block);
    if Ascii32(block) {
      PackedAscii(block, width);
    }
    hide EncodeAll8, Packed;
  }

  lemma ThisIsMissed(units: seq<bv32>, base: nat, width: Width, stop: nat, iter: nat)
    requires stop <= iter && iter + width.Lanes() <= |units| && Ascii32(units[..iter])
    requires Aligned(base, width, iter) && width.Address(base, iter) < width.FastEnd(base, |units|)
    requires width.Address(base, stop) % 32 == 0 && units[stop] < 0x80
    requires var block := units[iter..iter + width.Lanes()]; Passing(block, width) && !Ascii32(block)
    ensures Missed(units, base, width)
  {
    hide Ascii32, Passing, Width.Address, Width.FastEnd, Width.Lanes;
    StartIsAligned(base, width, stop);
    if stop < iter {
      BlocksApart(base, width, stop, iter);
    }
    if FirstStart(base, width, iter) {
      OnlyFirst(base, width, stop, iter);
    }
    assert Misread(units, base, width, iter);
  }

  lemma OnlyFirst(base: nat, width: Width, stop: nat, iter: nat)
    requires width.Address(base, stop) % 32 == 0 && FirstStart(base, width, iter) && stop <= iter
    ensures stop == iter
  {
    assert width.Address(base, iter) % 32 == 0 && iter < 2 * width.Lanes();
    hide *;
    Nearby(base, width, stop, iter);
    AddressGrows(base, width, stop, iter);
    AddressGrows(base, width, iter, stop);
    SameMultiple(width.Address(base, stop), width.Address(base, iter));
  }

  lemma SameMultiple(a: nat, b: nat)
    requires a % 32 == 0 && b % 32 == 0 && a <= b < a + 32
    ensures a == b
  {
    assert a == 32 * (a / 32) && b == 32 * (b / 32);
  }

  lemma Nearby(base: nat, width: Width, p: nat, q: nat)
    ensures p <= q < 2 * width.Lanes() ==> width.Address(base, q) - width.Address(base, p) < 32
  {
    if width.Two? {
      assert width.Address(base, q) - width.Address(base, p) == 2 * (q - p);
    } else {
      assert width.Address(base, q) - width.Address(base, p) == 4 * (q - p);
    }
  }

  /** The loop up to the first multiple of 32. */
  method AlignUnits(units: seq<bv32>, base: nat, width: Width, dest: seq<bv8>) returns (iter: nat, out: seq<bv8>)
    ensures iter <= |units| && Ascii32(units[..iter]) && Passing(units[..iter], width)
    ensures iter < |units| && units[iter] < 128 ==> width.Address(base, iter) % 32 == 0
    ensures NoStart(base, width, iter)
    ensures out == dest + EncodeAll8(units[..iter])
  {
    hide *;
    iter, out := 0, dest;
    NothingYet(units, base, width);
    while iter < |units| && units[iter] < 128 && width.Address(base, iter) % 32 != 0
      invariant iter <= |units| && Ascii32(units[..iter]) && Passing(units[..iter], width)
      invariant NoStart(base, width, iter)
      invariant out == dest + EncodeAll8(units[..iter])
    {
      OneUnit(units, iter, width);
      NoStartGrows(base, width, iter);
      out := out + [Low8(units[iter])];
      iter := iter + 1;
    }
  }

  /** The loop over whole registers from `start` on, an ASCII unit or the end. */
  method PackRegisters(units: seq<bv32>, base: nat, width: Width, start: nat, ghost dest: seq<bv8>, before: seq<bv8>)
    returns (iter: nat, out: seq<bv8>)
    requires start <= |units| && (start < |units| ==> units[start] < 128 && width.Address(base, start) % 32 == 0)
    requires Ascii32(units[..start]) && Passing(units[..start], width)
    requires NoStart(base, width, start)
    requires before == dest + EncodeAll8(units[..start])
    ensures iter <= |units| && Passing(units[..iter], width)
    ensures !Missed(units, base, width) ==> out == dest + EncodeAll8(units[..iter])
    ensures Missed(units, base, width) ==> |out| < |dest| + |EncodeAll8(units[..iter])|
  {
    hide *;
    iter, out := start, before;
    assert start == |units| || Aligned(base, width, start) by { StartIsAligned(base, width, start); }
    ghost var lost := false;
    NothingLost(units, base, width, start, dest, before);
    while width.Address(base, iter) < width.FastEnd(base, |units|)
      invariant start <= iter <= |units| && Passing(units[..iter], width)
      invariant Packing(units, base, width, iter, dest, out, lost)
      invariant start == |units| || Aligned(base, width, iter)
    {
      AddressGrows(base, width, |units|, iter);
      BlockFits(|units|, base, width, iter);
      var loaded := LoadRegister(units, base, iter, width);
      if !Passing(loaded, width) {
        PackingEnds(units, base, width, start, iter, dest, out, lost);
        return;
      }
      lost := RegisterPacked(units, base, width, start, iter, dest, out, lost);
      out := out + Packed(loaded, width);
      iter := iter + width.Lanes();
    }
    PackingEnds(units, base, width, start, iter, dest, out, lost);
  }

  /** What was packed up to `iter`: everything, or less because a register was misread. */
  ghost predicate Packing(units: seq<bv32>, base: nat, width: Width, iter: nat, dest: seq<bv8>, out: seq<bv8>, lost: bool)
  {
    && iter <= |units|
    && (lost ==> Missed(units, base, width) && |out| < |dest| + |EncodeAll8(units[..iter])|)
    && (!lost ==> Ascii32(units[..iter]) && out == dest + EncodeAll8(units[..iter]))
  }

  lemma NothingLost(units: seq<bv32>, base: nat, width: Width, start: nat, dest: seq<bv8>, before: seq<bv8>)
    requires start <= |units| && Ascii32(units[..start]) && before == dest + EncodeAll8(units[..start])
    ensures Packing(units, base, width, start, dest, before, false)
  {
  }

  lemma RegisterPacked(units: seq<bv32>, base: nat, width: Width, start: nat, iter: nat, dest: seq<bv8>, out: seq<bv8>,
      was: bool) returns (lost: bool)
    requires start <= iter && start < |units| && units[start] < 128 && width.Address(base, start) % 32 == 0
    requires iter + width.Lanes() <= |units| && Passing(units[..iter], width)
    requires Aligned(base, width, iter) && width.Address(base, iter) < width.FastEnd(base, |units|)
    requires Passing(units[iter..iter + width.Lanes()], width)
    requires Packing(units, base, width, iter, dest, out, was)
    ensures var n := width.Lanes();
      && Passing(units[..iter + n], width)
      && Packing(units, base, width, iter + n, dest, out + Packed(units[iter..iter + n], width), lost)
  {
    hide Ascii32, Passing, EncodeAll8, Packed, Missed, Width.Address, Width.FastEnd, Width.Lanes;
    var block := units[iter..iter + width.Lanes()];
    OneRegister(units, iter, width);
    PackedLength(block, width);
    lost := was || !Ascii32(block);
    if !was && lost {
      ThisIsMissed(units, base, width, start, iter);
    }
  }

  lemma PackedLength(s: seq<bv32>, width: Width)
    ensures |Packed(s, width)| == |s|
  {
  }

  lemma PackingEnds(units: seq<bv32>, base: nat, width: Width, start: nat, iter: nat, dest: seq<bv8>, out: seq<bv8>,
      lost: bool)
    requires start <= iter <= |units|
    requires NoStart(base, width, start)
    requires start == |units| || Aligned(base, width, iter)
    requires || width.Address(base, iter) >= width.FastEnd(base, |units|)
             || (iter + width.Lanes() <= |units| && !Passing(units[iter..iter + width.Lanes()], width))
    requires Packing(units, base, width, iter, dest, out, lost)
    ensures !Missed(units, base, width) ==> out == dest + EncodeAll8(units[..iter])
    ensures Missed(units, base, width) ==> |out| < |dest| + |EncodeAll8(units[..iter])|
  {
    hide Ascii32, Passing, EncodeAll8, Missed, Width.Address, Width.FastEnd, Width.Lanes;
    if !lost {
      if start == |units| {
        NothingMissed(units, base, width, start);
      } else {
        assert start < |units|;
        NothingMissedUpTo(units, base, width, start, iter);
      }
    }
  }

  /** utf16ToUtf8_partial_sse2 and utf32ToUtf8_partial_sse2: the byte mask picks only the top bit
      of each octet, so some registers that are not ASCII are packed; then, and only then, octets
      are missing. */
  method ToUtf8Partial(units: seq<bv32>, base: nat, width: Width, next: bv32, dest: seq<bv8>)
    returns (iter: nat, out: seq<bv8>)
    ensures iter <= |units| && Passing(units[..iter], width)
    ensures !Missed(units, base, width) ==> out == dest + EncodeAll8(units[..iter])
    ensures Missed(units, base, width) ==> |out| < |dest| + |EncodeAll8(units[..iter])|
  {
    hide Ascii32, Passing, EncodeAll8, Missed, Width.Address;
    iter, out := AlignUnits(units, base, width, dest);
    if Peek(units, iter, next) < 128 {
      iter, out := PackRegisters(units, base, width, iter, dest, out);
    } else {
      NothingMissed(units, base, width, iter);
    }
  }

  /** One U+0100 in a register is enough, in either width. */
  lemma PrefixDeparts(buffer: seq<bv32>, width: Width)
    requires |buffer| == 2 * width.Lanes() && buffer[0] == 0x41 && buffer[1] == 0x100
    requires forall k :: 2 <= k < |buffer| ==> buffer[k] == 0x41
    ensures Missed(buffer, 0, width)
  {
    hide Width.Passes, Width.AndMask, Width.TopBits;
    LatinPasses(width);
    var block := buffer[0..width.Lanes()];
    assert block[1] == 0x100 && !Ascii32(block);
    assert Passing(block, width) by {
      forall k | 0 <= k < |block| ensures width.Passes(block[k]) {
        assert block[k] == 0x41 || block[k] == 0x100;
      }
    }
    TwoRegisters(width);
    hide Ascii32, Passing, StartsBlock;
    assert Ascii32(buffer[..0]) by { NothingYet(buffer, 0, width); }
    assert Misread(buffer, 0, width, 0);
  }

  lemma TwoRegisters(width: Width)
    ensures StartsBlock(2 * width.Lanes(), 0, width, 0) && FirstStart(0, width, 0)
  {
    if width.Two? {
      assert width.Address(0, 16) == 32;
    } else {
      assert width.Address(0, 8) == 32;
    }
    assert width.FastEnd(0, 2 * width.Lanes()) == 32;
  }

  lemma LatinPasses(width: Width)
    ensures width.Passes(0x41) && width.Passes(0x100)
  {
  }

  // ---- The converters ----

  /** utf32ToUtf8: with the block prefix the encoding of the code points is appended exactly when
      no register is misread. */
  method Utf32ToUtf8(buffer: seq<bv32>, base: nat, next: bv32, hasSse2: bool, dest: seq<bv8>)
    returns (out: seq<bv8>)
    ensures out == dest + EncodeAll8(buffer) <==> !hasSse2 || !Missed(buffer, base, Four)
  {
    hide EncodeAll8, Missed, Passing;
    var iter := 0;
    out := dest;
    if hasSse2 {
      iter, out := ToUtf8Partial(buffer, base, Four, next, dest);
      EncodeSplit(buffer[..iter], buffer[iter..]);
      assert buffer == buffer[..iter] + buffer[iter..];
    } else {
      assert buffer[0..] == buffer;
    }
    out := Utf32ToUtf8Scalar(buffer, iter, out);
  }

  function Unit32(u: bv16): bv32 {
    u as bv32
  }

  function Units(buffer: seq<bv16>): (r: seq<bv32>)
    ensures |r| == |buffer|
  {
    if buffer == [] then [] else [Unit32(buffer[0])] + Units(buffer[1..])
  }

  /** A unit that passes the test is no surrogate. */
  lemma PassesIsBmp(u: bv16)
    ensures Two.Passes(u as bv32) ==> !IsHigh(u) && !IsLow(u)
  {
  }

  lemma PassingFront(buffer: seq<bv16>)
    requires buffer != [] && Utf16(buffer) && Two.Passes(Units(buffer)[0])
    ensures Utf16(buffer[1..]) && Units(buffer) == [Unit32(buffer[0])] + Units(buffer[1..])
    ensures DecodeAll16(buffer) == [Unit32(buffer[0])] + DecodeAll16(buffer[1..])
  {
    PassesIsBmp(buffer[0]);
    hide Width.Passes, IsHigh, IsLow;
  }

  lemma PassingTail(s: seq<bv32>, n: nat, width: Width)
    requires 0 < n <= |s| && Passing(s[..n], width)
    ensures width.Passes(s[0]) && Passing(s[1..][..n - 1], width) && s[..n] == [s[0]] + s[1..][..n - 1]
  {
    hide Width.Passes;
    assert s[..n][0] == s[0];
    var front, rest := s[..n], s[1..][..n - 1];
    assert forall k :: 0 <= k < n - 1 ==> rest[k] == front[k + 1];
  }

  /** Units that pass are code points by themselves, and what follows them stays well formed. */
  lemma {:induction false} PassingPrefix(buffer: seq<bv16>, n: nat)
    requires n <= |buffer| && Utf16(buffer) && Passing(Units(buffer)[..n], Two)
    ensures Utf16(buffer[n..])
    ensures DecodeAll16(buffer) == Units(buffer)[..n] + DecodeAll16(buffer[n..])
    decreases n
  {
    hide *;
    if n == 0 {
      assert buffer[0..] == buffer;
    } else {
      PassingTail(Units(buffer), n, Two);
      PassingFront(buffer);
      assert Units(buffer)[1..] == Units(buffer[1..]);
      assert buffer[1..][n - 1..] == buffer[n..];
      PassingPrefix(buffer[1..], n - 1);
      Regroup([Unit32(buffer[0])], Units(buffer[1..])[..n - 1], DecodeAll16(buffer[n..]));
    }
  }

  /** utf16ToUtf8, likewise. */
  method Utf16ToUtf8(buffer: seq<bv16>, base: nat, next: bv16, hasSse2: bool, dest: seq<bv8>)
    returns (out: seq<bv8>)
    requires Utf16(buffer)
    ensures out == dest + EncodeAll8(DecodeAll16(buffer)) <==> !hasSse2 || !Missed(Units(buffer), base, Two)
  {
    hide EncodeAll8, Missed, Passing, Units, Utf16, DecodeAll16;
    var iter := 0;
    out := dest;
    if hasSse2 {
      iter, out := ToUtf8Partial(Units(buffer), base, Two, next as bv32, dest);
      PassingPrefix(buffer, iter);
      EncodeSplit(Units(buffer)[..iter], DecodeAll16(buffer[iter..]));
    } else {
      assert buffer[0..] == buffer;
    }
    out := Utf16ToUtf8Scalar(buffer, iter, out);
  }
}
